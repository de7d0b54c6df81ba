/**
 The requests of an evdns_base on their way from the waiting ring to the
 network and back (evdns.c): submitting, pumping, finishing, retransmitting,
 failing nameservers, and resizing the table of inflight requests.
*/
module Requests {
  import opened Options
  import opened RequestState

  /** What sendto makes of a datagram. */
  datatype Outcome = Sent | Blocked | Failed

  /** How many waiting requests a pump moves. */
  function Room(inflight: nat, max: nat, waiting: nat, anyServer: bool): (n: nat)
    ensures n <= waiting && (n > 0 ==> inflight + n <= max && anyServer)
    ensures anyServer && inflight <= max ==> n == waiting || inflight + n == max
  {
    if !anyServer || inflight >= max then 0 else if waiting <= max - inflight then waiting else max - inflight
  }

  /** Requests that were in flight are still in flight under the same id. */
  ghost predicate KeepIds(a: map<Id, Req>, b: map<Id, Req>)
  {
    forall id | id in a && id in b && a[id].ns.Some? :: b[id].ns.Some? && b[id].transId == a[id].transId
  }

  /** The requests in `done` that were never sent have been moved off nameserver `s` to one that is up. */
  ghost predicate MovedOff(a: map<Id, Req>, b: map<Id, Req>, servers: map<Id, Server>, s: Id, done: set<Id>)
  {
    a.Keys == b.Keys && forall id | id in a ::
      if id in done && a[id].txCount == 0 && a[id].ns == Some(s)
      then b[id].ns.Some? && b[id].ns.value in servers && servers[b[id].ns.value].up && b[id] == a[id].(ns := b[id].ns)
      else b[id] == a[id]
  }

  lemma {:induction false} MovedStep(a: map<Id, Req>, b: map<Id, Req>, servers: map<Id, Server>, s: Id, done: set<Id>,
      id: Id, r: Req)
    requires MovedOff(a, b, servers, s, done) && id in a && s in servers && !servers[s].up
    requires if b[id].txCount == 0 && b[id].ns == Some(s)
             then r.ns.Some? && r.ns.value in servers && servers[r.ns.value].up && r == b[id].(ns := r.ns)
             else r == b[id]
    ensures MovedOff(a, b[id := r], servers, s, done + {id})
  {
  }

  lemma {:induction false} MovedAll(heads: seq<seq<Id>>, waiting: seq<Id>, a: map<Id, Req>, b: map<Id, Req>,
                                    servers: map<Id, Server>, s: Id, done: set<Id>)
    requires ListsOk(heads, waiting, a) && MovedOff(a, b, servers, s, done)
    requires forall k | 0 <= k < |heads| :: Covers(done, heads[k])
    ensures MovedOff(a, b, servers, s, a.Keys)
  {
    forall id | id in a && a[id].ns == Some(s)
      ensures id in done
    {
      assert Placed(heads, waiting, a, id);
      assert Covers(done, heads[a[id].transId % |heads|]);
    }
  }

  lemma {:induction false} MovedKeys(a: map<Id, Req>, b: map<Id, Req>, servers: map<Id, Server>, s: Id, done: set<Id>)
    requires MovedOff(a, b, servers, s, done)
    ensures a.Keys == b.Keys
  {
  }

  function Elems(ring: seq<Id>): set<Id>
  {
    set x | x in ring
  }

  lemma {:induction false} ElemsEmpty(done: set<Id>)
    ensures done + Elems([]) == done
  {
  }

  lemma {:induction false} ElemsSnoc(ring: seq<Id>, i: nat, done: set<Id>)
    requires i < |ring|
    ensures done + Elems(ring[..i]) + {ring[i]} == done + Elems(ring[..i + 1])
  {
    assert ring[..i + 1] == ring[..i] + [ring[i]];
  }

  /** The same nameservers, each with as many timeouts in a row, and none is back up. */
  ghost predicate NoneBack(a: map<Id, Server>, b: map<Id, Server>)
  {
    a.Keys == b.Keys && forall s | s in a :: b[s].timedOut == a[s].timedOut && (b[s].up ==> a[s].up)
  }

  lemma {:induction false} BackStart(a: map<Id, Server>)
    ensures NoneBack(a, a)
  {
  }

  lemma {:induction false} BackSet(a: map<Id, Server>, s: Id, v: Server)
    requires s in a && v.timedOut == a[s].timedOut && (v.up ==> a[s].up)
    ensures NoneBack(a, a[s := v])
  {
  }

  lemma {:induction false} BackThrough(a: map<Id, Server>, b: map<Id, Server>, c: map<Id, Server>)
    requires NoneBack(a, b) && NoneBack(b, c)
    ensures NoneBack(a, c)
  {
  }

  lemma {:induction false} BackKeys(a: map<Id, Server>, b: map<Id, Server>)
    requires NoneBack(a, b)
    ensures a.Keys == b.Keys
  {
  }

  /** Nameserver `s` is up; if it was down, its timeouts are counted anew. */
  function Revive(a: map<Id, Server>, s: Id): (b: map<Id, Server>)
    requires s in a
    ensures b.Keys == a.Keys && b[s].up && forall x | x in a && x != s :: b[x] == a[x]
  {
    if a[s].up then a else a[s := a[s].(up := true, timedOut := 0)]
  }

  /**
   A timeout has been counted against nameserver `s`: one too many in a row takes it down, and
   counting starts again.
  */
  ghost predicate Blamed(a: map<Id, Server>, b: map<Id, Server>, s: Id, most: nat)
  {
    && s in a && a.Keys == b.Keys
    && (forall x | x in a :: (b[x].up ==> a[x].up) && (x != s ==> b[x].timedOut == a[x].timedOut))
    && if a[s].timedOut + 1 > most then !b[s].up && b[s].timedOut == 0 else b[s].timedOut == a[s].timedOut + 1
  }

  lemma {:induction false} BlamedIs(a: map<Id, Server>, b: map<Id, Server>, s: Id, most: nat)
    requires s in a
    requires b ==
      a[s := if a[s].timedOut + 1 > most then a[s].(timedOut := 0, up := false)
             else a[s].(timedOut := a[s].timedOut + 1)]
    ensures Blamed(a, b, s, most)
  {
  }

  lemma {:induction false} BlamedThrough(a: map<Id, Server>, b: map<Id, Server>, c: map<Id, Server>, s: Id, most: nat)
    requires Blamed(a, b, s, most) && NoneBack(b, c)
    ensures Blamed(a, c, s, most)
  {
  }

  /** nameserver_pick gives `s`. */
  ghost predicate Turn(ring: seq<Id>, servers: map<Id, Server>, s: Id)
  {
    exists after :: Picked(ring, servers, after, s)
  }

  /** Requests that were in flight wait like new ones; those that waited are as they were. */
  ghost predicate AllFresh(a: map<Id, Req>, b: map<Id, Req>)
  {
    a.Keys == b.Keys && forall id | id in a :: b[id] == if a[id].ns.Some? then Req(0, None, 0, false, false) else a[id]
  }

  /** On the way there. */
  ghost predicate SomeFresh(a: map<Id, Req>, b: map<Id, Req>)
  {
    a.Keys == b.Keys && forall id | id in a ::
      b[id] == a[id] || (a[id].ns.Some? && b[id] == Req(0, None, 0, false, false))
  }

  lemma {:induction false} FreshStart(a: map<Id, Req>)
    ensures SomeFresh(a, a)
  {
  }

  lemma {:induction false} FreshStep(a: map<Id, Req>, b: map<Id, Req>, id: Id)
    requires SomeFresh(a, b) && id in b && b[id].ns.Some?
    ensures SomeFresh(a, b[id := SUSPENDED])
  {
  }

  lemma {:induction false} FreshAll(a: map<Id, Req>, b: map<Id, Req>)
    requires SomeFresh(a, b) && forall id | id in b :: b[id].ns.None?
    ensures AllFresh(a, b)
  {
  }

  /** No request among these is marked while its nameserver's socket is free. */
  ghost predicate SentAmong(reqs: map<Id, Req>, servers: map<Id, Server>, among: set<Id>)
  {
    forall id | id in among && id in reqs && reqs[id].ns.Some? && reqs[id].transmitMe ::
      reqs[id].ns.value in servers && servers[reqs[id].ns.value].choked
  }

  /** Sending request `id` has changed no other request, and no blocked socket is free again. */
  ghost predicate OneSent(a: map<Id, Req>, b: map<Id, Req>, before: map<Id, Server>, after: map<Id, Server>, id: Id)
  {
    && id in b && b == a[id := b[id]] && before.Keys == after.Keys
    && (forall s | s in before && before[s].choked :: after[s].choked)
    && (b[id].transmitMe && b[id].ns.Some? ==> b[id].ns.value in after && after[b[id].ns.value].choked)
  }

  lemma {:induction false} NoneAmong(reqs: map<Id, Req>, servers: map<Id, Server>)
    ensures SentAmong(reqs, servers, {})
  {
  }

  lemma {:induction false} SentOne(a: map<Id, Req>, b: map<Id, Req>, before: map<Id, Server>, after: map<Id, Server>,
      among: set<Id>, id: Id)
    ensures SentAmong(a, before, among) && OneSent(a, b, before, after, id) ==> SentAmong(b, after, among + {id})
  {
  }

  lemma {:induction false} NotMarked(reqs: map<Id, Req>, servers: map<Id, Server>, among: set<Id>, id: Id)
    requires id in reqs && !reqs[id].transmitMe
    ensures SentAmong(reqs, servers, among) ==> SentAmong(reqs, servers, among + {id})
  {
  }

  lemma {:induction false} SentEverywhere(heads: seq<seq<Id>>, waiting: seq<Id>, reqs: map<Id, Req>, servers: map<Id,
      Server>,
                                          done: set<Id>, steady: bool)
    requires ListsOk(heads, waiting, reqs) && (steady ==> SentAmong(reqs, servers, done))
    requires forall k | 0 <= k < |heads| :: Covers(done, heads[k])
    ensures steady ==> SentAmong(reqs, servers, reqs.Keys)
  {
    forall id | id in reqs && reqs[id].ns.Some?
      ensures id in done
    {
      assert Placed(heads, waiting, reqs, id);
      assert Covers(done, heads[reqs[id].transId % |heads|]);
    }
  }

  /**
   A request that was sent `sent` times has been sent once more and timed, or stays marked because
   its nameserver's socket is blocked.
  */
  predicate SentAgain(r: Req, servers: map<Id, Server>, sent: nat)
  {
    r.ns.Some? && r.ns.value in servers &&
      if r.transmitMe then servers[r.ns.value].choked && r.txCount == sent else r.timer && r.txCount == sent + 1
  }

  ghost predicate Covers(done: set<Id>, ring: seq<Id>)
  {
    forall x | x in ring :: x in done
  }

  /** Taking the waiting head into flight. */
  lemma {:induction false} PromoteStep(heads: seq<seq<Id>>, waiting: seq<Id>, reqs: map<Id, Req>, r: Req)
    requires ListsOk(heads, waiting, reqs) && waiting != []
    requires r.ns.Some? && r.transId < NO_ID && Unused(heads, reqs, r.transId)
    ensures var b := r.transId % |heads|; ListsOk(heads[b := heads[b] + [waiting[0]]], waiting[1..], reqs[waiting[0] := r])
  {
    var id := waiting[0];
    RemovedWaiting(heads, waiting, reqs, 0);
    assert Without(waiting, 0) == waiting[1..];
    InsertedInflight(heads, waiting[1..], reqs - {id}, id, r);
    assert (reqs - {id})[id := r] == reqs[id := r];
  }

  /** The place of a request in a ring. */
  function IndexOf(ring: seq<Id>, id: Id): (i: nat)
    requires id in ring
    ensures i < |ring| && ring[i] == id
  {
    if ring[0] == id then 0 else IndexOf(ring[1..], id) + 1
  }

  class Base {
    var heads: seq<seq<Id>>
    var waiting: seq<Id>
    var reqs: map<Id, Req>
    var ring: seq<Id>
    var servers: map<Id, Server>
    var good: nat
    var inflight: nat
    var waitingCount: nat
    var maxInflight: nat
    var maxRetransmits: nat
    var maxTimeouts: nat

    /** The counters are the sizes of the rings they stand for, and the table has the size for the maximum. */
    ghost predicate Counted()
      reads this
    {
      && inflight == Total(heads) && waitingCount == |waiting|
      && 1 <= maxInflight <= 65000 && |heads| == (maxInflight + 4) / 5
    }

    ghost predicate Valid()
      reads this
    {
      ListsOk(heads, waiting, reqs) && ServersOk(ring, servers, good) && NsOk(reqs, servers, {}) && Counted()
    }

    /** ... except that request `id` may be neither timed nor marked. */
    ghost predicate ValidBut(id: Id)
      reads this
    {
      ListsOk(heads, waiting, reqs) && ServersOk(ring, servers, good) && NsOk(reqs, servers, {id}) && Counted()
    }

    /** evdns_base_new, as far as requests go. */
    constructor ()
      ensures Valid() && reqs == map[] && servers == map[] && ring == [] && maxInflight == 64
    {
      heads, waiting, reqs := seq(13, _ => []), [], map[];
      ring, servers, good := [], map[], 0;
      inflight, waitingCount := 0, 0;
      maxInflight, maxRetransmits, maxTimeouts := 64, 3, 3;
      new;
      TotalEmpty(heads);
    }

    /** request_find_from_trans_id: looking into one ring is enough. */
    method Find(t: nat) returns (r: Maybe<Id>)
      requires RingsOk(heads, reqs)
      ensures if r.Some? then r.value in heads[t % |heads|] && r.value in reqs && reqs[r.value].transId == t
              else Unused(heads, reqs, t)
      ensures ListsOk(heads, waiting, reqs) ==> Found(reqs, t, r)
    {
      var b := t % |heads|;
      assert RingOk(heads[b], reqs, b, |heads|);
      var i: nat := 0;
      while i < |heads[b]|
        invariant i <= |heads[b]| && forall j | 0 <= j < i :: reqs[heads[b][j]].transId != t
      {
        if reqs[heads[b][i]].transId == t {
          return Some(heads[b][i]);
        }
        i := i + 1;
      }
      NotThere(heads, waiting, reqs, t);
      return None;
    }

    /** The ids that the random generator gives until one can be used. */
    method RandomIds() returns (draws: seq<nat>)
      requires RingsOk(heads, reqs) && Total(heads) < NO_ID
      ensures exists i :: 0 <= i < |draws| && draws[i] != NO_ID && Unused(heads, reqs, draws[i])
      ensures forall i | 0 <= i < |draws| :: draws[i] <= NO_ID
    {
      ghost var t := FreeId(heads, reqs);
      assert [t][0] == t;
      draws :| (exists i :: 0 <= i < |draws| && draws[i] != NO_ID && Unused(heads, reqs, draws[i]))
               && forall i | 0 <= i < |draws| :: draws[i] <= NO_ID;
    }

    /** transaction_id_pick. */
    method TransactionIdPick() returns (t: nat)
      requires RingsOk(heads, reqs) && Total(heads) < NO_ID
      ensures t < NO_ID && Unused(heads, reqs, t)
    {
      hide Total;
      var draws := RandomIds();
      var i: nat := 0;
      while i < |draws|
        invariant i <= |draws|
        invariant exists j :: i <= j < |draws| && draws[j] != NO_ID && Unused(heads, reqs, draws[j])
      {
        if draws[i] != NO_ID {
          var r := Find(draws[i]);
          if r.None? {
            return draws[i];
          }
          assert !Unused(heads, reqs, draws[i]) by {
            UsedThere(heads, reqs, draws[i], r.value);
          }
        }
        i := i + 1;
      }
      assert false;
    }

    /** nameserver_pick. */
    method NameserverPick() returns (r: Maybe<Id>)
      requires ServersOk(ring, servers, good)
      modifies `ring
      ensures ServersOk(ring, servers, good)
      ensures r.None? <==> old(ring) == []
      ensures r.Some? ==> r.value in servers && Picked(old(ring), servers, ring, r.value)
      ensures r.Some? && good > 0 ==> servers[r.value].up
    {
      hide Good, ServersOk, Picked, PickedAt, NoneBack;
      if ring == [] {
        return None;
      }
      ghost var before := ring;
      RingKnown(before, servers, good);
      if good == 0 {
        ring := ring[1..] + ring[..1];
        AllDown(before, servers, good);
        Rotated(before, servers, good, 1);
        PickedDown(before, servers);
        return Some(ring[0]);
      }
      ghost var k: nat := 0;
      assert before[0..] + before[..0] == before;
      while true
        invariant k < |before| && ring == before[k..] + before[..k]
        invariant forall i | 0 <= i < k :: !servers[before[i]].up
        decreases |before| - k
      {
        var s := ring[0];
        RotateStep(before, k);
        ring := ring[1..] + ring[..1];
        if servers[s].up {
          Rotated(before, servers, good, k + 1);
          PickedUp(before, servers, k);
          return Some(s);
        }
        k := k + 1;
        if k == |before| {
          AllDownMeans(before, servers, good);
          assert false;
        }
      }
    }

    /**
     The inner loop of nameserver_failed: requests of one ring that still wait to be sent go to
     another nameserver.
    */
    method Reassign(b: nat, s: Id, ghost a: map<Id, Req>, ghost done: set<Id>)
      requires b < |heads| && RingsOk(heads, reqs) && ServersOk(ring, servers, good) && good > 0
      requires s in servers && !servers[s].up && MovedOff(a, reqs, servers, s, done)
      modifies `reqs, `ring
      ensures ServersOk(ring, servers, good)
      ensures MovedOff(a, reqs, servers, s, done + Elems(heads[b]))
    {
      hide ServersOk, Picked, MovedOff, Elems, RingsOk, NoneBack;
      RingThere(heads, reqs, b);
      MovedKeys(a, reqs, servers, s, done);
      var i: nat := 0;
      ElemsEmpty(done);
      assert heads[b][..0] == [];
      while i < |heads[b]|
        invariant i <= |heads[b]| && ServersOk(ring, servers, good) && reqs.Keys == a.Keys
        invariant MovedOff(a, reqs, servers, s, done + Elems(heads[b][..i]))
      {
        var id := heads[b][i];
        ghost var was := reqs;
        if reqs[id].txCount == 0 && reqs[id].ns == Some(s) {
          NonEmpty(ring, servers, good, s);
          var other := NameserverPick();
          reqs := reqs[id := reqs[id].(ns := other)];
        }
        MovedStep(a, was, servers, s, done + Elems(heads[b][..i]), id, reqs[id]);
        assert was[id := reqs[id]] == reqs;
        ElemsSnoc(heads[b], i, done);
        i := i + 1;
      }
      assert heads[b][..i] == heads[b];
    }

    /**
     nameserver_failed: the nameserver is down; if another one is up, the
     inflight requests that were not yet sent to this one go elsewhere.
    */
    method NameserverFailed(s: Id)
      requires s in servers && ServersOk(ring, servers, good) && ListsOk(heads, waiting, reqs)
      modifies `reqs, `ring, `servers, `good
      ensures ServersOk(ring, servers, good)
      ensures servers == old(servers)[s := old(servers[s]).(up := false)]
      ensures good == old(good) - (if old(servers[s].up) then 1 else 0)
      ensures if old(servers[s].up) && good > 0 then MovedOff(old(reqs), reqs, servers, s, old(reqs).Keys)
              else reqs == old(reqs)
    {
      hide ServersOk, MovedOff, Elems, NoneBack;
      if !servers[s].up {
        assert servers[s := servers[s].(up := false)] == servers;
        return;
      }
      ServerChanged(ring, servers, good, s, servers[s].(up := false));
      good := good - 1;
      servers := servers[s := servers[s].(up := false)];
      if good == 0 {
        return;
      }
      ghost var done: set<Id> := {};
      MovedStart(reqs, servers, s);
      var i: nat := 0;
      while i < |heads|
        invariant i <= |heads| && ServersOk(ring, servers, good)
        invariant MovedOff(old(reqs), reqs, servers, s, done)
        invariant forall k | 0 <= k < i :: Covers(done, heads[k])
        modifies `reqs, `ring
      {
        RingsStay(heads, waiting, old(reqs), reqs, servers, s, done);
        Reassign(i, s, old(reqs), done);
        done := done + Elems(heads[i]);
        CoversElems(heads[i], done);
        i := i + 1;
      }
      MovedAll(heads, waiting, old(reqs), reqs, servers, s, done);
    }

    /** evdns_request_transmit: the request is sent and timed, or stays marked while the socket is blocked. */
    method Transmit(id: Id)
      requires id in reqs && reqs[id].ns.Some? && reqs[id].ns.value in servers && ServersOk(ring, servers, good)
      requires ListsOk(heads, waiting, reqs) && NsOk(reqs, servers, {id})
      modifies `reqs, `ring, `servers, `good
      ensures ServersOk(ring, servers, good) && servers.Keys == old(servers).Keys && NoneBack(old(servers), servers)
      ensures SamePlaces(old(reqs), reqs) && ListsOk(heads, waiting, reqs) && NsOk(reqs, servers, {})
      ensures if reqs[id].transmitMe then reqs[id].ns == old(reqs[id].ns) && servers[reqs[id].ns.value].choked
                && reqs[id].txCount == old(reqs[id].txCount)
              else reqs[id].timer && reqs[id].txCount == old(reqs[id].txCount) + 1
      ensures reqs[id].ns == old(reqs[id].ns) || !servers[old(reqs[id].ns).value].up
      ensures good <= old(good) && (good == old(good) ==> OneSent(old(reqs), reqs, old(servers), servers, id))
    {
      hide ServersOk, ListsOk, MovedOff, NsOk, SamePlaces, NoneBack;
      ghost var was := reqs;
      BackStart(servers);
      ReqChanged(heads, waiting, reqs, servers, {id}, id, reqs[id].(transmitMe := true));
      reqs := reqs[id := reqs[id].(transmitMe := true)];
      var s := reqs[id].ns.value;
      if servers[s].choked {
        return;
      }
      var outcome: Outcome := *;
      if outcome == Blocked {
        ServerChanged(ring, servers, good, s, servers[s].(choked := true));
        NsStays(reqs, servers, {}, s, servers[s].(choked := true));
        BackSet(servers, s, servers[s].(choked := true));
        servers := servers[s := servers[s].(choked := true)];
        return;
      }
      ghost var marked := reqs;
      if outcome == Failed {
        BackSet(servers, s, servers[s].(up := false));
        NameserverFailed(s);
        FailedKeeps(heads, waiting, marked, reqs, old(servers), servers, s, id, {});
        SameThrough(was, marked, reqs);
      }
      ghost var before := reqs;
      ReqChanged(heads, waiting, reqs, servers, {}, id,
        reqs[id].(timer := true, txCount := reqs[id].txCount + 1, transmitMe := false));
      reqs := reqs[id := reqs[id].(timer := true, txCount := reqs[id].txCount + 1, transmitMe := false)];
      SameThrough(was, before, reqs);
    }

    /**
     evdns_transmit: everything that is marked is sent, as far as the sockets take
     it.  If a nameserver fails meanwhile, a marked request that the walk has
     passed may be moved to a free one, where it stays marked.
    */
    method TransmitAll()
      requires ServersOk(ring, servers, good) && ListsOk(heads, waiting, reqs) && NsOk(reqs, servers, {})
      modifies `reqs, `ring, `servers, `good
      ensures ServersOk(ring, servers, good) && servers.Keys == old(servers).Keys && NoneBack(old(servers), servers)
      ensures SamePlaces(old(reqs), reqs) && ListsOk(heads, waiting, reqs) && NsOk(reqs, servers, {})
      ensures good <= old(good) && (good == old(good) ==> SentAmong(reqs, servers, reqs.Keys))
    {
      hide ServersOk, ListsOk, NsOk, SamePlaces, SentAmong, OneSent, Elems, NoneBack;
      SameStart(reqs);
      BackStart(servers);
      NoneAmong(reqs, servers);
      ghost var done: set<Id> := {};
      var b: nat := 0;
      while b < |heads|
        invariant b <= |heads| && ServersOk(ring, servers, good) && servers.Keys == old(servers).Keys
          && NoneBack(old(servers), servers)
        invariant SamePlaces(old(reqs), reqs) && ListsOk(heads, waiting, reqs) && NsOk(reqs, servers, {})
        invariant good <= old(good) && (good == old(good) ==> SentAmong(reqs, servers, done))
        invariant forall k | 0 <= k < b :: Covers(done, heads[k])
        modifies `reqs, `ring, `servers, `good
      {
        ghost var before, free := reqs, servers;
        TransmitRing(b, done);
        BackThrough(old(servers), free, servers);
        SameThrough(old(reqs), before, reqs);
        done := done + Elems(heads[b]);
        CoversElems(heads[b], done);
        b := b + 1;
      }
      SentEverywhere(heads, waiting, reqs, servers, done, good == old(good));
    }

    /** The inner loop of evdns_transmit. */
    method TransmitRing(b: nat, ghost done: set<Id>)
      requires b < |heads| && ServersOk(ring, servers, good) && ListsOk(heads, waiting, reqs) && NsOk(reqs, servers, {})
      modifies `reqs, `ring, `servers, `good
      ensures ServersOk(ring, servers, good) && servers.Keys == old(servers).Keys && NoneBack(old(servers), servers)
      ensures SamePlaces(old(reqs), reqs) && ListsOk(heads, waiting, reqs) && NsOk(reqs, servers, {})
      ensures good <= old(good)
      ensures good == old(good) && old(SentAmong(reqs, servers, done)) ==>
        SentAmong(reqs, servers, done + Elems(heads[b]))
    {
      hide ServersOk, ListsOk, NsOk, SamePlaces, SentAmong, OneSent, Elems, NoneBack;
      SameStart(reqs);
      BackStart(servers);
      ElemsEmpty(done);
      assert heads[b][..0] == [];
      var i: nat := 0;
      while i < |heads[b]|
        invariant i <= |heads[b]| && ServersOk(ring, servers, good) && servers.Keys == old(servers).Keys
          && NoneBack(old(servers), servers)
        invariant SamePlaces(old(reqs), reqs) && ListsOk(heads, waiting, reqs) && NsOk(reqs, servers, {})
        invariant good <= old(good)
        invariant good == old(good) && old(SentAmong(reqs, servers, done)) ==>
          SentAmong(reqs, servers, done + Elems(heads[b][..i]))
        modifies `reqs, `ring, `servers, `good
      {
        var id := heads[b][i];
        ghost var before, free, among := reqs, servers, done + Elems(heads[b][..i]);
        MemberKnown(heads, waiting, reqs, servers, b, i);
        if reqs[id].transmitMe {
          NsLess(reqs, servers, id);
          Transmit(id);
          BackThrough(old(servers), free, servers);
          SameThrough(old(reqs), before, reqs);
          SentOne(before, reqs, free, servers, among, id);
        } else {
          NotMarked(reqs, servers, among, id);
        }
        ElemsSnoc(heads[b], i, done);
        i := i + 1;
      }
      assert heads[b][..i] == heads[b];
    }

    /** The head of the waiting ring goes into flight under a fresh id, not yet sent. */
    method TakeWaiting(ns: Id) returns (id: Id)
      requires Valid() && waiting != [] && inflight < maxInflight && ns in servers
      modifies `heads, `waiting, `reqs, `waitingCount, `inflight
      ensures ListsOk(heads, waiting, reqs) && Counted() && NsOk(reqs, servers, {id})
      ensures waiting == old(waiting[1..]) && inflight == old(inflight) + 1
      ensures id == old(waiting[0]) && id in old(reqs) && old(reqs[id]).ns.None?
      ensures id in reqs && reqs == old(reqs)[id := reqs[id]] && reqs[id].ns == Some(ns)
    {
      hide ListsOk, NsOk, Total, Unused, RingsOk, ServersOk, NoneBack;
      id := waiting[0];
      WaitingKnown(heads, waiting, reqs);
      RingsThere(heads, waiting, reqs);
      var t := TransactionIdPick();
      var r := reqs[id].(ns := Some(ns), transId := t);
      PromoteStep(heads, waiting, reqs, r);
      NsPromoted(reqs, servers, id, r);
      var b := t % |heads|;
      TotalSet(heads, b, heads[b] + [id]);
      waiting, waitingCount, inflight := waiting[1..], waitingCount - 1, inflight + 1;
      reqs := reqs[id := r];
      heads := heads[b := heads[b] + [id]];
    }

    /** One turn of the pump: the head of the waiting ring gets a nameserver and a fresh id, and is sent. */
    method Promote(ns: Id)
      requires Valid() && waiting != [] && inflight < maxInflight && ns in servers
      modifies `heads, `waiting, `reqs, `ring, `servers, `good, `waitingCount, `inflight
      ensures Valid() && waiting == old(waiting[1..]) && inflight == old(inflight) + 1
      ensures reqs.Keys == old(reqs).Keys && KeepIds(old(reqs), reqs) && servers.Keys == old(servers).Keys
        && NoneBack(old(servers), servers)
    {
      hide ServersOk, ListsOk, NsOk, SamePlaces, KeepIds, Total, NoneBack;
      var id := TakeWaiting(ns);
      ghost var placed := reqs;
      ghost var known := servers;
      Transmit(id);
      ghost var sent, free := reqs, servers;
      TransmitAll();
      BackThrough(known, free, servers);
      SameThrough(placed, sent, reqs);
      IdsKept(old(reqs), id, placed[id], reqs);
    }

    /**
     evdns_requests_pump_waiting_queue: as many requests as there is room for
     leave the waiting ring, first come first served; it ends with nothing
     waiting, with the maximum in flight, or without nameservers.
    */
    method Pump()
      requires Valid()
      modifies this
      ensures Valid() && reqs.Keys == old(reqs).Keys && KeepIds(old(reqs), reqs) && servers.Keys == old(servers).Keys
        && NoneBack(old(servers), servers)
      ensures maxInflight == old(maxInflight) && maxRetransmits == old(maxRetransmits)
        && maxTimeouts == old(maxTimeouts)
      ensures var k := Room(old(inflight), maxInflight, |old(waiting)|, old(ring) != []);
              inflight == old(inflight) + k && waiting == old(waiting)[k..]
    {
      hide ServersOk, ListsOk, NsOk, KeepIds, Total, Picked, NoneBack;
      ghost var k: nat := 0;
      KeptStart(reqs);
      BackStart(servers);
      RingSize(ring, servers, good);
      assert waiting[0..] == waiting;
      while inflight < maxInflight && waitingCount != 0
        invariant Valid() && reqs.Keys == old(reqs).Keys && KeepIds(old(reqs), reqs)
          && servers.Keys == old(servers).Keys && NoneBack(old(servers), servers)
        invariant maxInflight == old(maxInflight) && maxRetransmits == old(maxRetransmits)
          && maxTimeouts == old(maxTimeouts)
        invariant k <= |old(waiting)| && inflight == old(inflight) + k && waiting == old(waiting)[k..]
        invariant old(ring) == [] ==> k == 0
        invariant k > 0 ==> inflight <= maxInflight
        decreases waitingCount
      {
        RingSize(ring, servers, good);
        var ns := NameserverPick();
        if ns.None? {
          return;
        }
        ghost var was, free := reqs, servers;
        Promote(ns.value);
        BackThrough(old(servers), free, servers);
        KeptThrough(old(reqs), was, reqs);
        k := k + 1;
      }
    }

    /** request_finished: the request leaves its ring and is freed, and the pump runs. */
    method RequestFinished(id: Id, wasInflight: bool)
      requires ValidBut(id) && id in reqs && reqs[id].ns.Some? == wasInflight
      modifies this
      ensures Valid() && reqs.Keys == old(reqs).Keys - {id} && KeepIds(old(reqs), reqs)
        && servers.Keys == old(servers).Keys && NoneBack(old(servers), servers)
      ensures maxInflight == old(maxInflight) && maxRetransmits == old(maxRetransmits)
        && maxTimeouts == old(maxTimeouts)
      ensures if wasInflight then old(inflight) > 0 else id in old(waiting)
      ensures var left := if wasInflight then old(inflight) - 1 else old(inflight);
              var rest := if wasInflight then old(waiting) else Without(old(waiting), IndexOf(old(waiting), id));
              var k := Room(left, maxInflight, |rest|, old(ring) != []);
              inflight == left + k && waiting == rest[k..]
    {
      hide ServersOk, ListsOk, NsOk, KeepIds, Total, Without, Room, NoneBack;
      ghost var was := reqs;
      WherePlaced(heads, waiting, reqs, id);
      NsFewer(reqs, servers, id);
      if wasInflight {
        var b := reqs[id].transId % |heads|;
        var i := IndexOf(heads[b], id);
        RemovedInflight(heads, waiting, reqs, b, i);
        TotalSet(heads, b, Without(heads[b], i));
        TotalAtLeast(heads, b);
        heads := heads[b := Without(heads[b], i)];
        inflight := inflight - 1;
      } else {
        var i := IndexOf(waiting, id);
        RemovedWaiting(heads, waiting, reqs, i);
        waiting := Without(waiting, i);
        waitingCount := waitingCount - 1;
      }
      reqs := reqs - {id};
      ghost var fewer := reqs;
      Pump();
      KeptFewer(was, id, fewer, reqs);
    }

    /** evdns_cancel_request. */
    method Cancel(id: Id)
      requires Valid() && id in reqs
      modifies this
      ensures Valid() && reqs.Keys == old(reqs).Keys - {id} && KeepIds(old(reqs), reqs)
      ensures NoneBack(old(servers), servers) && maxTimeouts == old(maxTimeouts)
    {
      hide ServersOk, ListsOk, NsOk, KeepIds, Total, Without, Room, NoneBack;
      NsLess(reqs, servers, id);
      RequestFinished(id, reqs[id].ns.Some?);
    }

    /**
     request_new and request_submit: a request goes straight into flight when
     there is room and a nameserver, and waits at the end of the line otherwise.
    */
    method Resolve(id: Id)
      requires Valid() && id !in reqs
      modifies this
      ensures Valid() && reqs.Keys == old(reqs).Keys + {id} && KeepIds(old(reqs), reqs)
        && servers.Keys == old(servers).Keys && NoneBack(old(servers), servers)
      ensures maxInflight == old(maxInflight) && maxRetransmits == old(maxRetransmits)
        && maxTimeouts == old(maxTimeouts)
      ensures old(inflight) < maxInflight && old(ring) != [] ==>
        exists s :: Turn(old(ring), old(servers), s) && id in reqs && s in servers && (reqs[id].ns == Some(s) || !servers[s].up)
      ensures if old(inflight) < maxInflight && old(ring) != []
              then inflight == old(inflight) + 1 && waiting == old(waiting)
              else inflight == old(inflight) && waiting == old(waiting) + [id]
    {
      hide ServersOk, ListsOk, NsOk, KeepIds, Total, Picked, RingsOk, NoneBack;
      var issuingNow := inflight < maxInflight;
      var t := NO_ID;
      var ns: Maybe<Id> := None;
      RingsThere(heads, waiting, reqs);
      if issuingNow {
        t := TransactionIdPick();
        ns := NameserverPick();
      }
      Submit(id, Req(t, ns, 0, false, false));
    }

    /** request_submit. */
    method Submit(id: Id, r: Req)
      requires Valid() && id !in reqs && r.txCount == 0 && !r.transmitMe && !r.timer
      requires r.ns.Some? ==> r.ns.value in servers && r.transId < NO_ID && Unused(heads, reqs, r.transId)
      modifies this
      ensures Valid() && reqs.Keys == old(reqs).Keys + {id} && KeepIds(old(reqs), reqs)
        && servers.Keys == old(servers).Keys && NoneBack(old(servers), servers)
      ensures maxInflight == old(maxInflight) && maxRetransmits == old(maxRetransmits)
        && maxTimeouts == old(maxTimeouts)
      ensures id in reqs && (r.ns.Some? ==> reqs[id].ns == r.ns || !servers[r.ns.value].up)
      ensures if r.ns.Some? then inflight == old(inflight) + 1 && waiting == old(waiting)
              else inflight == old(inflight) && waiting == old(waiting) + [id]
    {
      hide ServersOk, ListsOk, NsOk, KeepIds, Total, Unused, NoneBack;
      ghost var was := reqs;
      BackStart(servers);
      RingsThere(heads, waiting, reqs);
      if r.ns.Some? {
        InsertedInflight(heads, waiting, reqs, id, r);
        NsPromoted(reqs, servers, id, r);
        var b := r.transId % |heads|;
        TotalSet(heads, b, heads[b] + [id]);
        heads := heads[b := heads[b] + [id]];
        reqs := reqs[id := r];
        inflight := inflight + 1;
        Transmit(id);
        IdsKept(was, id, r, reqs);
      } else {
        assert waiting + [] == waiting && waiting + [id] + [] == waiting + [id];
        InsertedWaiting(heads, waiting, [], reqs, id, r);
        NsWaiting(reqs, servers, id, r);
        KeptWaiting(reqs, id, r);
        waiting := waiting + [id];
        waitingCount := waitingCount + 1;
        reqs := reqs[id := r];
      }
    }

    /** A timeout counts against the nameserver, which fails after too many in a row. */
    method BlameNameserver(id: Id)
      requires ValidBut(id) && id in reqs && reqs[id].ns.Some?
      modifies `reqs, `ring, `servers, `good
      ensures ValidBut(id) && SamePlaces(old(reqs), reqs)
        && Blamed(old(servers), servers, old(reqs[id].ns).value, maxTimeouts)
      ensures id in reqs && reqs[id].txCount == old(reqs[id].txCount)
    {
      hide ServersOk, ListsOk, NsOk, Total, SamePlaces, MovedOff, NoneBack;
      ghost var was := reqs;
      NsKnown(reqs, servers, id);
      var s := reqs[id].ns.value;
      var late := servers[s].timedOut + 1 > maxTimeouts;
      var v := servers[s].(timedOut := if late then 0 else servers[s].timedOut + 1);
      ServerChanged(ring, servers, good, s, v);
      NsStays(reqs, servers, {id}, s, v);
      servers := servers[s := v];
      SameStart(reqs);
      if late {
        NameserverFailed(s);
        FailedKeeps(heads, waiting, was, reqs, old(servers)[s := v], servers, s, id, {id});
      }
      BlamedIs(old(servers), servers, s, maxTimeouts);
    }

    /** The request goes out again, to the nameserver whose turn it is. */
    method Retransmit(id: Id)
      requires ValidBut(id) && id in reqs && reqs[id].ns.Some?
      modifies `reqs, `ring, `servers, `good
      ensures Valid() && SamePlaces(old(reqs), reqs) && servers.Keys == old(servers).Keys
        && NoneBack(old(servers), servers)
      ensures old(ring) != [] ==>
                exists s :: Turn(old(ring), old(servers), s) && s in servers && id in reqs
                            && (reqs[id].ns == Some(s) || !servers[s].up)
      ensures id in reqs && SentAgain(reqs[id], servers, old(reqs[id].txCount))
    {
      hide ServersOk, ListsOk, NsOk, Total, SamePlaces, Picked, NoneBack;
      ghost var was := reqs;
      NsKnown(reqs, servers, id);
      Retimed(heads, waiting, reqs, servers, id);
      reqs := reqs[id := reqs[id].(timer := false)];
      var newNs := NameserverPick();
      if newNs.Some? {
        Renamed(heads, waiting, was, reqs, servers, id, newNs.value);
        reqs := reqs[id := reqs[id].(ns := newNs)];
      }
      ghost var marked := reqs;
      Transmit(id);
      StillFlying(marked, reqs, id);
      NsLess(reqs, servers, id);
      NsKnown(reqs, servers, id);
      SameThrough(was, marked, reqs);
    }

    /**
     evdns_request_timeout_callback: the timer has fired, so the request is sent
     again, unless its nameserver's socket is blocked, or given up after too many times.
    */
    method TimeoutCallback(id: Id)
      requires Valid() && id in reqs && reqs[id].ns.Some?
      modifies this
      ensures Valid() && KeepIds(old(reqs), reqs) && Blamed(old(servers), servers, old(reqs[id].ns).value, maxTimeouts)
      ensures maxInflight == old(maxInflight) && maxTimeouts == old(maxTimeouts)
      ensures if old(reqs[id].txCount) >= maxRetransmits then reqs.Keys == old(reqs).Keys - {id}
              else reqs.Keys == old(reqs).Keys && inflight == old(inflight) && waiting == old(waiting)
                   && SentAgain(reqs[id], servers, old(reqs[id].txCount))
    {
      hide ServersOk, ListsOk, NsOk, KeepIds, Total, Without, Room, SamePlaces, NoneBack;
      ghost var was := reqs;
      NsLess(reqs, servers, id);
      Retimed(heads, waiting, reqs, servers, id);
      reqs := reqs[id := reqs[id].(timer := false)];
      ghost var fired := reqs;
      BlameNameserver(id);
      ghost var blamed, counted := reqs, servers;
      SameThrough(was, fired, blamed);
      KeptSame(was, blamed);
      StillFlying(was, blamed, id);
      if reqs[id].txCount >= maxRetransmits {
        RequestFinished(id, true);
        BlamedThrough(old(servers), counted, servers, old(reqs[id].ns).value, maxTimeouts);
        KeptAll(was, blamed, reqs);
      } else {
        Retransmit(id);
        BlamedThrough(old(servers), counted, servers, old(reqs[id].ns).value, maxTimeouts);
        SameThrough(was, blamed, reqs);
        KeptSame(was, reqs);
      }
    }

    /**
     evdns_base_set_max_requests_inflight: a new table of rings; no request gets lost and none
     becomes harder to find.
    */
    method SetMaxRequestsInflight(max: int)
      requires Valid() && max <= 65000
      modifies this
      ensures Valid() && maxInflight == (if max < 1 then 1 else max)
      ensures reqs == old(reqs) && inflight == old(inflight) && waiting == old(waiting) && servers == old(servers)
      ensures maxTimeouts == old(maxTimeouts)
    {
      hide ServersOk, ListsOk, NsOk, Total, Rehashing, NoneBack;
      var m := if max < 1 then 1 else max;
      var nHeads := (m + 4) / 5;
      var newHeads: seq<seq<Id>> := seq(nHeads, _ => []);
      var oldHeads := heads;
      RingsThere(heads, waiting, reqs);
      TotalEmpty(newHeads);
      RehashStart(oldHeads, newHeads, waiting, reqs);
      var i: nat := 0;
      while i < |oldHeads|
        invariant i <= |oldHeads| == |heads| && |newHeads| == nHeads && Rehashing(oldHeads, newHeads, waiting, reqs)
        invariant Total(oldHeads) + Total(newHeads) == inflight
        invariant forall k | 0 <= k < i :: oldHeads[k] == []
        decreases |heads| - i
        modifies {}
      {
        while oldHeads[i] != []
          invariant i < |oldHeads| == |heads| && |newHeads| == nHeads && Rehashing(oldHeads, newHeads, waiting, reqs)
          invariant Total(oldHeads) + Total(newHeads) == inflight
          invariant forall k | 0 <= k < i :: oldHeads[k] == []
          decreases |oldHeads[i]|
          modifies {}
        {
          var id := oldHeads[i][0];
          RehashStep(oldHeads, newHeads, waiting, reqs, i);
          var b := reqs[id].transId % nHeads;
          TotalSet(oldHeads, i, oldHeads[i][1..]);
          TotalSet(newHeads, b, newHeads[b] + [id]);
          oldHeads := oldHeads[i := oldHeads[i][1..]];
          newHeads := newHeads[b := newHeads[b] + [id]];
        }
        i := i + 1;
      }
      TotalEmpty(oldHeads);
      RehashEnd(oldHeads, newHeads, waiting, reqs);
      heads, maxInflight := newHeads, m;
    }

    /**
     evdns_base_clear_nameservers_and_suspend: everything that was in flight
     waits in front of what waited before, last request first.
    */
    method ClearNameserversAndSuspend()
      requires Valid()
      modifies this
      ensures Valid() && reqs.Keys == old(reqs).Keys && maxInflight == old(maxInflight)
        && maxTimeouts == old(maxTimeouts)
      ensures if old(ring) == [] then servers == old(servers) else servers == map[] && AllFresh(old(reqs), reqs)
      ensures if old(ring) == [] then inflight == old(inflight) && waiting == old(waiting) && reqs == old(reqs)
              else ring == [] && inflight == 0 && waiting == Reverse(Inflight(old(heads))) + old(waiting)
    {
      hide ListsOk, NsOk, Total, Reverse, Inflight, SomeFresh, AllFresh;
      if ring == [] {
        return;
      }
      Idle(reqs, servers);
      FreshStart(reqs);
      ring, servers, good := [], map[], 0;
      ghost var before := heads;
      SuspendStart(waiting);
      var i: nat := 0;
      assert before[..0] == [];
      while i < |heads|
        invariant i <= |heads| == |before| && ListsOk(heads, waiting, reqs) && waitingCount == |waiting|
        invariant forall k | 0 <= k < |heads| :: heads[k] == if k < i then [] else before[k]
        invariant waiting == Reverse(Inflight(before[..i])) + old(waiting)
        invariant reqs.Keys == old(reqs).Keys && forall id | id in reqs && reqs[id].ns.None? :: !reqs[id].timer
        invariant SomeFresh(old(reqs), reqs)
        modifies `heads, `waiting, `reqs, `waitingCount
      {
        SuspendRing(i, Inflight(before[..i]), old(waiting), old(reqs));
        InflightSnoc(before[..i], before[i]);
        assert before[..i + 1] == before[..i] + [before[i]];
        i := i + 1;
      }
      assert before[..i] == before;
      TotalEmpty(heads);
      AllWaiting(heads, waiting, reqs);
      FreshAll(old(reqs), reqs);
      inflight := 0;
    }

    /** The inner loop of suspending. */
    method SuspendRing(b: nat, ghost moved: seq<Id>, ghost waited: seq<Id>, ghost a: map<Id, Req>)
      requires b < |heads| && ListsOk(heads, waiting, reqs) && waitingCount == |waiting|
      requires waiting == Reverse(moved) + waited
      requires forall id | id in reqs && reqs[id].ns.None? :: !reqs[id].timer
      requires SomeFresh(a, reqs)
      modifies `heads, `waiting, `reqs, `waitingCount
      ensures SomeFresh(a, reqs)
      ensures heads == old(heads)[b := []] && ListsOk(heads, waiting, reqs) && waitingCount == |waiting|
      ensures waiting == Reverse(moved + old(heads)[b]) + waited
      ensures reqs.Keys == old(reqs).Keys && forall id | id in reqs && reqs[id].ns.None? :: !reqs[id].timer
    {
      hide ListsOk, Reverse, SomeFresh;
      ghost var rest := heads;
      var i: nat := 0;
      assert moved + heads[b][..0] == moved;
      while i < |heads[b]|
        invariant i <= |heads[b]| && rest == heads[b := heads[b][i..]] && ListsOk(rest, waiting, reqs)
        invariant waiting == Reverse(moved + heads[b][..i]) + waited && waitingCount == |waiting|
        invariant reqs.Keys == old(reqs).Keys && forall id | id in reqs && reqs[id].ns.None? :: !reqs[id].timer
        invariant SomeFresh(a, reqs)
        modifies `waiting, `reqs, `waitingCount
      {
        var id := heads[b][i];
        SuspendStep(rest, waiting, reqs, b);
        RingMember(rest, waiting, reqs, b);
        rest := rest[b := rest[b][1..]];
        ReverseSnoc(moved + heads[b][..i], id);
        assert moved + heads[b][..i] + [id] == moved + heads[b][..i + 1];
        FreshStep(a, reqs, id);
        reqs := reqs[id := SUSPENDED];
        waitingCount := waitingCount + 1;
        // inserted at the tail of a circular list, whose head then steps back by one
        waiting := [id] + waiting;
        i := i + 1;
      }
      assert heads[b][..i] == heads[b] && heads[b][i..] == [];
      heads := heads[b := []];
    }

    /** evdns_base_resume. */
    method Resume()
      requires Valid()
      modifies this
      ensures Valid() && reqs.Keys == old(reqs).Keys && KeepIds(old(reqs), reqs)
      ensures NoneBack(old(servers), servers) && maxTimeouts == old(maxTimeouts)
      ensures waiting != [] ==> inflight >= maxInflight || ring == []
    {
      hide ServersOk, ListsOk, NsOk, KeepIds, Total, NoneBack;
      RingSize(ring, servers, good);
      Pump();
      RingSize(ring, servers, good);
    }

    /** _evdns_nameserver_add_impl: a new nameserver goes behind the head. */
    method NameserverAdd(s: Id)
      requires Valid() && s !in servers
      modifies `ring, `servers, `good
      ensures Valid() && servers == old(servers)[s := Server(true, false, 0)]
    {
      hide ListsOk, NsOk, Total, Good;
      ServerAdded(ring, servers, good, s, Server(true, false, 0));
      NsStays(reqs, servers, {}, s, Server(true, false, 0));
      ring := if ring == [] then [s] else [ring[0], s] + ring[1..];
      servers := servers[s := Server(true, false, 0)];
      good := good + 1;
    }

    /** nameserver_up, without a probe under way. */
    method NameserverUp(s: Id)
      requires Valid() && s in servers
      modifies `servers, `good
      ensures Valid() && servers == Revive(old(servers), s)
    {
      hide ListsOk, NsOk, Total, ServersOk, NoneBack;
      if servers[s].up {
        return;
      }
      ServerChanged(ring, servers, good, s, servers[s].(up := true, timedOut := 0));
      NsStays(reqs, servers, {}, s, servers[s].(up := true, timedOut := 0));
      servers := servers[s := servers[s].(up := true, timedOut := 0)];
      good := good + 1;
    }

    /** nameserver_read: a datagram has come from the nameserver, so its timeouts are counted anew. */
    method Hear(s: Id)
      requires Valid() && s in servers
      modifies `servers
      ensures Valid() && servers == old(servers)[s := old(servers)[s].(timedOut := 0)]
    {
      hide ListsOk, NsOk, Total, ServersOk;
      ServerChanged(ring, servers, good, s, servers[s].(timedOut := 0));
      NsStays(reqs, servers, {}, s, servers[s].(timedOut := 0));
      servers := servers[s := servers[s].(timedOut := 0)];
    }

    /** The end of reply_handle: a good reply brings the nameserver back up, and the request is done. */
    method ReplyHandle(id: Id, isUp: bool)
      requires Valid() && id in reqs && reqs[id].ns.Some?
      modifies this
      ensures Valid() && reqs.Keys == old(reqs).Keys - {id} && KeepIds(old(reqs), reqs)
      ensures maxTimeouts == old(maxTimeouts) && old(reqs[id].ns).value in old(servers)
      ensures NoneBack(if isUp then Revive(old(servers), old(reqs[id].ns).value) else old(servers), servers)
    {
      hide ListsOk, NsOk, Total, ServersOk, KeepIds, NoneBack, Without, Room;
      NsLess(reqs, servers, id);
      NsKnown(reqs, servers, id);
      if isUp {
        NameserverUp(reqs[id].ns.value);
        NsLess(reqs, servers, id);
      }
      RequestFinished(id, true);
    }

    /** nameserver_ready_callback for writing: the socket takes datagrams again. */
    method Writable(s: Id)
      requires Valid() && s in servers
      modifies `reqs, `ring, `servers, `good
      ensures Valid() && servers.Keys == old(servers).Keys && NoneBack(old(servers), servers)
        && reqs.Keys == old(reqs).Keys && KeepIds(old(reqs), reqs)
      ensures good <= old(good) && (good == old(good) ==> SentAmong(reqs, servers, reqs.Keys))
    {
      hide ListsOk, NsOk, Total, ServersOk, KeepIds, SamePlaces, SentAmong, NoneBack;
      ghost var was := reqs;
      ServerChanged(ring, servers, good, s, servers[s].(choked := false));
      NsStays(reqs, servers, {}, s, servers[s].(choked := false));
      BackSet(servers, s, servers[s].(choked := false));
      servers := servers[s := servers[s].(choked := false)];
      ghost var free := servers;
      TransmitAll();
      BackThrough(old(servers), free, servers);
      KeptSame(was, reqs);
    }

    /** nameserver_send_probe: a probe goes into flight no matter what. */
    method SendProbe(s: Id, id: Id)
      requires Valid() && s in servers && id !in reqs && inflight < NO_ID
      modifies this
      ensures Valid() && reqs.Keys == old(reqs).Keys + {id} && KeepIds(old(reqs), reqs)
      ensures NoneBack(old(servers), servers) && maxTimeouts == old(maxTimeouts)
      ensures id in reqs && s in servers && (reqs[id].ns == Some(s) || !servers[s].up)
      ensures inflight == old(inflight) + 1 && waiting == old(waiting) && maxInflight == old(maxInflight)
    {
      hide ListsOk, NsOk, Total, ServersOk, Unused, Picked, NoneBack;
      RingsThere(heads, waiting, reqs);
      if inflight < maxInflight {
        var unusedId := TransactionIdPick();
        var unusedNs := NameserverPick();
      }
      var t := TransactionIdPick();
      Submit(id, Req(t, Some(s), 0, false, false));
    }
  }

  lemma {:induction false} RingKnown(ring: seq<Id>, servers: map<Id, Server>, good: nat)
    requires ServersOk(ring, servers, good)
    ensures forall i | 0 <= i < |ring| :: ring[i] in servers
  {
    hide Good;
  }

  lemma {:induction false} AllDownMeans(ring: seq<Id>, servers: map<Id, Server>, good: nat)
    requires ServersOk(ring, servers, good) && forall i | 0 <= i < |ring| :: ring[i] in servers && !servers[ring[i]].up
    ensures good == 0
  {
    NoneGood(ring, servers);
  }

  lemma {:induction false} RotateStep(ring: seq<Id>, k: nat)
    requires k < |ring|
    ensures (ring[k..] + ring[..k])[0] == ring[k]
    ensures var r := ring[k..] + ring[..k]; r[1..] + r[..1] == ring[k + 1..] + ring[..k + 1]
  {
    var r := ring[k..] + ring[..k];
    assert r[1..] == ring[k + 1..] + ring[..k];
    assert r[..1] == [ring[k]] && ring[..k + 1] == ring[..k] + [ring[k]];
  }

  lemma {:induction false} PickedUp(ring: seq<Id>, servers: map<Id, Server>, k: nat)
    requires k < |ring| && ring[k] in servers && servers[ring[k]].up
    requires forall i | 0 <= i < k :: ring[i] in servers && !servers[ring[i]].up
    ensures Picked(ring, servers, ring[k + 1..] + ring[..k + 1], ring[k])
  {
    assert PickedAt(ring, servers, ring[k + 1..] + ring[..k + 1], ring[k], k);
  }

  lemma {:induction false} PickedDown(ring: seq<Id>, servers: map<Id, Server>)
    requires ring != [] && forall i | 0 <= i < |ring| :: ring[i] in servers && !servers[ring[i]].up
    ensures var after := ring[1..] + ring[..1]; after[0] in servers && Picked(ring, servers, after, after[0])
  {
    var after := ring[1..] + ring[..1];
    assert PickedAt(ring, servers, after, after[0], |ring| - 1);
    assert after[0] == ring[if |ring| == 1 then 0 else 1];
  }

  lemma {:induction false} AllDown(ring: seq<Id>, servers: map<Id, Server>, good: nat)
    requires ServersOk(ring, servers, good) && good == 0
    ensures forall i | 0 <= i < |ring| :: !servers[ring[i]].up
  {
    hide Good;
    forall i | 0 <= i < |ring|
      ensures !servers[ring[i]].up
    {
      if servers[ring[i]].up {
        SomeGood(ring, servers, i);
      }
    }
  }

  lemma {:induction false} NotThere(heads: seq<seq<Id>>, waiting: seq<Id>, reqs: map<Id, Req>, t: nat)
    requires RingsOk(heads, reqs)
    requires var ring := heads[t % |heads|]; forall i | 0 <= i < |ring| && ring[i] in reqs :: reqs[ring[i]].transId != t
    ensures Unused(heads, reqs, t) && (ListsOk(heads, waiting, reqs) ==> Found(reqs, t, None))
  {
    forall b, i | 0 <= b < |heads| && 0 <= i < |heads[b]| && heads[b][i] in reqs
      ensures reqs[heads[b][i]].transId != t
    {
      assert RingOk(heads[b], reqs, b, |heads|);
      assert InRing(reqs[heads[b][i]], b, |heads|);
    }
    if ListsOk(heads, waiting, reqs) {
      forall id | id in reqs && reqs[id].ns.Some?
        ensures reqs[id].transId != t
      {
        assert Placed(heads, waiting, reqs, id);
      }
    }
  }

  lemma {:induction false} UsedThere(heads: seq<seq<Id>>, reqs: map<Id, Req>, t: nat, id: Id)
    requires heads != [] && id in heads[t % |heads|] && id in reqs && reqs[id].transId == t
    ensures !Unused(heads, reqs, t)
  {
    var b := t % |heads|;
    var i :| 0 <= i < |heads[b]| && heads[b][i] == id;
  }

  lemma {:induction false} RingThere(heads: seq<seq<Id>>, reqs: map<Id, Req>, b: nat)
    requires RingsOk(heads, reqs) && b < |heads|
    ensures forall i | 0 <= i < |heads[b]| :: heads[b][i] in reqs
  {
    assert RingOk(heads[b], reqs, b, |heads|);
  }

  lemma {:induction false} NonEmpty(ring: seq<Id>, servers: map<Id, Server>, good: nat, s: Id)
    requires ServersOk(ring, servers, good) && s in servers
    ensures ring != []
  {
    hide Good;
    assert s in ring;
  }

  lemma {:induction false} MovedStart(reqs: map<Id, Req>, servers: map<Id, Server>, s: Id)
    ensures MovedOff(reqs, reqs, servers, s, {})
  {
  }

  lemma {:induction false} RingsStay(heads: seq<seq<Id>>, waiting: seq<Id>, a: map<Id, Req>, b: map<Id, Req>,
                                     servers: map<Id, Server>, s: Id, done: set<Id>)
    requires ListsOk(heads, waiting, a) && MovedOff(a, b, servers, s, done)
    ensures RingsOk(heads, b)
  {
    ListsStay(heads, waiting, a, b);
  }

  lemma {:induction false} CoversElems(ring: seq<Id>, done: set<Id>)
    requires Elems(ring) <= done
    ensures Covers(done, ring)
  {
  }

  /**
   After a nameserver has failed: every request is where it was, and request `id` differs at most in
   its nameserver.
  */
  lemma {:induction false} FailedKeeps(heads: seq<seq<Id>>, waiting: seq<Id>, a: map<Id, Req>, b: map<Id, Req>,
                                       before: map<Id, Server>, after: map<Id, Server>, s: Id, id: Id, except: set<Id>)
    requires ListsOk(heads, waiting, a) && NsOk(a, before, except) && id in a && a[id].ns.Some? && s in before
    requires after == before[s := before[s].(up := false)]
    requires b == a || MovedOff(a, b, after, s, a.Keys)
    ensures SamePlaces(a, b) && ListsOk(heads, waiting, b) && NsOk(b, after, except)
    ensures id in b && b[id].ns.Some? && b[id].ns.value in after && b[id] == a[id].(ns := b[id].ns)
  {
    hide ListsOk;
    ListsStay(heads, waiting, a, b);
  }

  /** A request that keeps its place gets other fields. */
  lemma {:induction false} ReqChanged(heads: seq<seq<Id>>, waiting: seq<Id>, reqs: map<Id, Req>, servers: map<Id,
      Server>,
                                      except: set<Id>, id: Id, r: Req)
    requires ListsOk(heads, waiting, reqs) && NsOk(reqs, servers, except) && except <= {id}
    requires id in reqs && reqs[id].ns.Some? && reqs[id].ns.value in servers
    requires r.ns.Some? && r.ns.value in servers && r.transId == reqs[id].transId && (r.timer || r.transmitMe)
    ensures ListsOk(heads, waiting, reqs[id := r])
    ensures SamePlaces(reqs, reqs[id := r]) && NsOk(reqs[id := r], servers, {})
  {
    hide ListsOk;
    ListsStay(heads, waiting, reqs, reqs[id := r]);
  }

  lemma {:induction false} NsStays(reqs: map<Id, Req>, servers: map<Id, Server>, except: set<Id>, s: Id, v: Server)
    requires NsOk(reqs, servers, except)
    ensures NsOk(reqs, servers[s := v], except)
  {
  }

  lemma {:induction false} SameThrough(a: map<Id, Req>, b: map<Id, Req>, c: map<Id, Req>)
    requires SamePlaces(a, b) && SamePlaces(b, c)
    ensures SamePlaces(a, c)
  {
  }

  lemma {:induction false} SameStart(a: map<Id, Req>)
    ensures SamePlaces(a, a)
  {
  }

  lemma {:induction false} MemberKnown(heads: seq<seq<Id>>, waiting: seq<Id>, reqs: map<Id, Req>, servers: map<Id,
      Server>, b: nat, i: nat)
    requires ListsOk(heads, waiting, reqs) && NsOk(reqs, servers, {}) && b < |heads| && i < |heads[b]|
    ensures heads[b][i] in reqs && reqs[heads[b][i]].ns.Some? && reqs[heads[b][i]].ns.value in servers
  {
    assert RingOk(heads[b], reqs, b, |heads|);
    assert InRing(reqs[heads[b][i]], b, |heads|);
  }

  lemma {:induction false} NsLess(reqs: map<Id, Req>, servers: map<Id, Server>, id: Id)
    requires NsOk(reqs, servers, {})
    ensures NsOk(reqs, servers, {id})
  {
  }

  lemma {:induction false} WaitingKnown(heads: seq<seq<Id>>, waiting: seq<Id>, reqs: map<Id, Req>)
    requires ListsOk(heads, waiting, reqs) && waiting != []
    ensures waiting[0] in reqs && reqs[waiting[0]].ns.None?
  {
  }

  lemma {:induction false} RingsThere(heads: seq<seq<Id>>, waiting: seq<Id>, reqs: map<Id, Req>)
    requires ListsOk(heads, waiting, reqs)
    ensures RingsOk(heads, reqs) && heads != []
  {
  }

  lemma {:induction false} NsPromoted(reqs: map<Id, Req>, servers: map<Id, Server>, id: Id, r: Req)
    requires NsOk(reqs, servers, {}) && r.ns.Some? && r.ns.value in servers
    ensures NsOk(reqs[id := r], servers, {id})
  {
  }

  lemma {:induction false} IdsKept(a: map<Id, Req>, id: Id, r: Req, b: map<Id, Req>)
    requires (id in a ==> a[id].ns.None?) && r.ns.Some? && SamePlaces(a[id := r], b)
    ensures b.Keys == a.Keys + {id} && KeepIds(a, b)
  {
  }

  lemma {:induction false} KeptStart(a: map<Id, Req>)
    ensures KeepIds(a, a)
  {
  }

  lemma {:induction false} KeptThrough(a: map<Id, Req>, b: map<Id, Req>, c: map<Id, Req>)
    requires KeepIds(a, b) && KeepIds(b, c) && a.Keys == b.Keys == c.Keys
    ensures KeepIds(a, c)
  {
  }

  lemma {:induction false} KeptFewer(a: map<Id, Req>, id: Id, fewer: map<Id, Req>, b: map<Id, Req>)
    requires fewer == a - {id} && KeepIds(fewer, b) && b.Keys == fewer.Keys
    ensures b.Keys == a.Keys - {id} && KeepIds(a, b)
  {
  }

  lemma {:induction false} KeptWaiting(a: map<Id, Req>, id: Id, r: Req)
    requires id !in a
    ensures KeepIds(a, a[id := r]) && a[id := r].Keys == a.Keys + {id}
  {
  }

  lemma {:induction false} RingSize(ring: seq<Id>, servers: map<Id, Server>, good: nat)
    requires ServersOk(ring, servers, good)
    ensures ring == [] <==> servers.Keys == {}
  {
    hide Good;
    if ring != [] {
      assert ring[0] in ring;
    }
    if servers.Keys != {} {
      var s :| s in servers.Keys;
      assert s in ring;
    }
  }

  lemma {:induction false} WherePlaced(heads: seq<seq<Id>>, waiting: seq<Id>, reqs: map<Id, Req>, id: Id)
    requires ListsOk(heads, waiting, reqs) && id in reqs
    ensures heads != [] && Placed(heads, waiting, reqs, id)
  {
  }

  lemma {:induction false} NsFewer(reqs: map<Id, Req>, servers: map<Id, Server>, id: Id)
    requires NsOk(reqs, servers, {id})
    ensures NsOk(reqs - {id}, servers, {})
  {
  }

  lemma {:induction false} NsWaiting(reqs: map<Id, Req>, servers: map<Id, Server>, id: Id, r: Req)
    requires NsOk(reqs, servers, {}) && r.ns.None? && !r.timer
    ensures NsOk(reqs[id := r], servers, {})
  {
  }

  lemma {:induction false} TotalAtLeast(heads: seq<seq<Id>>, b: nat)
    requires b < |heads|
    ensures Total(heads) >= |heads[b]|
  {
    TotalSet(heads, b, []);
  }

  lemma {:induction false} NsKnown(reqs: map<Id, Req>, servers: map<Id, Server>, id: Id)
    requires NsOk(reqs, servers, {id}) && id in reqs && reqs[id].ns.Some?
    ensures reqs[id].ns.value in servers
  {
  }

  lemma {:induction false} KeptSame(a: map<Id, Req>, b: map<Id, Req>)
    requires SamePlaces(a, b)
    ensures KeepIds(a, b) && a.Keys == b.Keys
  {
  }

  lemma {:induction false} KeptAll(a: map<Id, Req>, b: map<Id, Req>, c: map<Id, Req>)
    requires SamePlaces(a, b) && KeepIds(b, c)
    ensures KeepIds(a, c)
  {
  }

  lemma {:induction false} StillFlying(a: map<Id, Req>, b: map<Id, Req>, id: Id)
    requires SamePlaces(a, b) && id in a && a[id].ns.Some?
    ensures id in b && b[id].ns.Some?
  {
  }

  /** The request's timer is off: it must be sent at once. */
  lemma {:induction false} Retimed(heads: seq<seq<Id>>, waiting: seq<Id>, reqs: map<Id, Req>, servers: map<Id,
      Server>, id: Id)
    requires ListsOk(heads, waiting, reqs) && NsOk(reqs, servers, {id}) && id in reqs && reqs[id].ns.Some?
    ensures var b := reqs[id := reqs[id].(timer := false)];
            SamePlaces(reqs, b) && ListsOk(heads, waiting, b) && NsOk(b, servers, {id})
  {
    hide ListsOk;
    ListsStay(heads, waiting, reqs, reqs[id := reqs[id].(timer := false)]);
  }

  lemma {:induction false} Renamed(heads: seq<seq<Id>>, waiting: seq<Id>, was: map<Id, Req>, reqs: map<Id, Req>,
                                   servers: map<Id, Server>, id: Id, s: Id)
    requires ListsOk(heads, waiting, reqs) && NsOk(reqs, servers, {id}) && s in servers
    requires SamePlaces(was, reqs) && id in reqs && reqs[id].ns.Some?
    ensures var b := reqs[id := reqs[id].(ns := Some(s))];
            SamePlaces(was, b) && ListsOk(heads, waiting, b) && NsOk(b, servers, {id})
  {
    hide ListsOk;
    ListsStay(heads, waiting, reqs, reqs[id := reqs[id].(ns := Some(s))]);
  }

  lemma {:induction false} Idle(reqs: map<Id, Req>, servers: map<Id, Server>)
    requires NsOk(reqs, servers, {})
    ensures forall id | id in reqs && reqs[id].ns.None? :: !reqs[id].timer
  {
  }

  lemma {:induction false} SuspendStart(waiting: seq<Id>)
    ensures Reverse(Inflight([])) + waiting == waiting
  {
  }

  lemma {:induction false} RingMember(heads: seq<seq<Id>>, waiting: seq<Id>, reqs: map<Id, Req>, b: nat)
    requires ListsOk(heads, waiting, reqs) && b < |heads| && heads[b] != []
    ensures heads[b][0] in reqs && reqs[heads[b][0]].ns.Some?
  {
    assert RingOk(heads[b], reqs, b, |heads|);
    assert InRing(reqs[heads[b][0]], b, |heads|);
  }

  lemma {:induction false} AllWaiting(heads: seq<seq<Id>>, waiting: seq<Id>, reqs: map<Id, Req>)
    requires ListsOk(heads, waiting, reqs) && (forall k | 0 <= k < |heads| :: heads[k] == [])
    requires forall id | id in reqs && reqs[id].ns.None? :: !reqs[id].timer
    ensures forall id | id in reqs :: reqs[id].ns.None?
    ensures NsOk(reqs, map[], {})
  {
    forall id | id in reqs
      ensures reqs[id].ns.None?
    {
      assert Placed(heads, waiting, reqs, id);
    }
  }

  lemma {:induction false} ServerAdded(ring: seq<Id>, servers: map<Id, Server>, good: nat, s: Id, v: Server)
    requires ServersOk(ring, servers, good) && s !in servers && v.up
    ensures ServersOk(if ring == [] then [s] else [ring[0], s] + ring[1..], servers[s := v], good + 1)
  {
    hide Good;
    var with := servers[s := v];
    assert s !in ring;
    GoodElsewhere(ring, servers, s, v);
    GoodOne(s, with);
    if ring != [] {
      var r := [ring[0], s] + ring[1..];
      assert r == [ring[0]] + ([s] + ring[1..]) && ring == [ring[0]] + ring[1..];
      GoodConcat([ring[0]], [s] + ring[1..], with);
      GoodConcat([s], ring[1..], with);
      GoodConcat([ring[0]], ring[1..], with);
      forall x
        ensures x in r <==> x in ring || x == s
      {
        assert x in ring <==> x in [ring[0]] + ring[1..];
      }
    }
  }

  lemma {:induction false} GoodOne(s: Id, servers: map<Id, Server>)
    requires s in servers && servers[s].up
    ensures Good([s], servers) == 1 && Good([], servers) == 0
  {
    assert [s][1..] == [];
  }

  // ---------- runs ----------

  /** What happens to an evdns_base. A step that the base's state rules out does nothing. */
  datatype Step =
    | Ask(id: Id) | Withdraw(id: Id) | Answer(id: Id, isUp: bool) | Late(id: Id) | Probe(id: Id, s: Id)
    | AddServer(s: Id) | Back(s: Id) | Down(s: Id) | Ready(s: Id) | Heard(s: Id)
    | Limit(max: int) | Suspend | Go

  /** The requests that must still be there: asked for, and not withdrawn, answered or possibly given up. */
  function MustLive(steps: seq<Step>): set<Id>
  {
    if steps == [] then {} else
      var before := MustLive(steps[..|steps| - 1]);
      match steps[|steps| - 1]
      case Ask(id) => before + {id}
      case Withdraw(id) => before - {id}
      case Answer(id, _) => before - {id}
      case Late(id) => before - {id}
      case _ => before
  }

  /** The requests that may still be there. */
  function MayLive(steps: seq<Step>): set<Id>
  {
    if steps == [] then {} else
      var before := MayLive(steps[..|steps| - 1]);
      match steps[|steps| - 1]
      case Ask(id) => before + {id}
      case Probe(id, _) => before + {id}
      case Withdraw(id) => before - {id}
      case _ => before
  }

  /** What is known of a base between two steps. */
  datatype Scene = Scene(reqs: map<Id, Req>, servers: map<Id, Server>)

  ghost function SceneOf(b: Base): Scene
    reads b
  {
    Scene(b.reqs, b.servers)
  }

  /** The timer of request `id` is pending. */
  predicate Timed(a: Scene, id: Id)
  {
    id in a.reqs && a.reqs[id].ns.Some? && a.reqs[id].timer
  }

  predicate Flying(a: Scene, id: Id)
  {
    id in a.reqs && a.reqs[id].ns.Some?
  }

  /** What a step does to the nameservers. */
  ghost predicate Stepped(a: Scene, step: Step, b: Scene, most: nat)
  {
    match step
    case Late(id) => if Timed(a, id) then Blamed(a.servers, b.servers, a.reqs[id].ns.value, most) else b == a
    case AddServer(s) => b.servers == if s in a.servers then a.servers else a.servers[s := Server(true, false, 0)]
    case Back(s) => b.servers == if s in a.servers then Revive(a.servers, s) else a.servers
    case Heard(s) => b.servers == if s in a.servers then a.servers[s := a.servers[s].(timedOut := 0)] else a.servers
    case Answer(id, isUp) =>
      if !Flying(a, id) then b == a
      else
        && a.reqs[id].ns.value in a.servers
        && NoneBack(if isUp then Revive(a.servers, a.reqs[id].ns.value) else a.servers, b.servers)
    case Suspend => b.servers == a.servers || b.servers == map[]
    case _ => NoneBack(a.servers, b.servers)
  }

  /** One step of a run. */
  method Perform(b: Base, step: Step)
    requires b.Valid()
    modifies b
    ensures b.Valid()
    ensures Stepped(old(SceneOf(b)), step, SceneOf(b), b.maxTimeouts) && b.maxTimeouts == old(b.maxTimeouts)
    ensures match step
            case Ask(id) => b.reqs.Keys == old(b.reqs).Keys + {id}
            case Withdraw(id) => b.reqs.Keys == old(b.reqs).Keys - {id}
            case Answer(id, _) => old(b.reqs).Keys - {id} <= b.reqs.Keys <= old(b.reqs).Keys
            case Late(id) => old(b.reqs).Keys - {id} <= b.reqs.Keys <= old(b.reqs).Keys
            case Probe(id, _) => old(b.reqs).Keys <= b.reqs.Keys <= old(b.reqs).Keys + {id}
            case _ => b.reqs.Keys == old(b.reqs).Keys
  {
    hide ListsOk, NsOk, Total, ServersOk, KeepIds, SamePlaces, Room, Without, Reverse, Inflight, NoneBack;
    BackStart(b.servers);
    match step {
    case Ask(id) =>
      if id !in b.reqs {
        b.Resolve(id);
      }
    case Withdraw(id) =>
      if id in b.reqs {
        b.Cancel(id);
      }
    case Answer(id, isUp) =>
      if id in b.reqs && b.reqs[id].ns.Some? {
        b.ReplyHandle(id, isUp);
      }
    case Late(id) =>
      if id in b.reqs && b.reqs[id].ns.Some? && b.reqs[id].timer {
        b.TimeoutCallback(id);
      }
    case Probe(id, s) =>
      if id !in b.reqs && s in b.servers && b.inflight < NO_ID {
        b.SendProbe(s, id);
      }
    case AddServer(s) =>
      if s !in b.servers {
        b.NameserverAdd(s);
      }
    case Back(s) =>
      if s in b.servers {
        b.NameserverUp(s);
      }
    case Down(s) =>
      if s in b.servers {
        ServerFails(b, s);
      }
    case Ready(s) =>
      if s in b.servers {
        b.Writable(s);
      }
    case Heard(s) =>
      if s in b.servers {
        b.Hear(s);
      }
    case Limit(max) =>
      b.SetMaxRequestsInflight(if max > 65000 then 65000 else max);
    case Suspend =>
      b.ClearNameserversAndSuspend();
    case Go =>
      b.Resume();
    }
  }

  /** nameserver_failed, from outside. */
  method ServerFails(b: Base, s: Id)
    requires b.Valid() && s in b.servers
    modifies b
    ensures b.Valid() && b.reqs.Keys == old(b.reqs).Keys
    ensures NoneBack(old(b.servers), b.servers) && b.maxTimeouts == old(b.maxTimeouts)
  {
    hide ListsOk, Total, ServersOk, NoneBack;
    ghost var was, before := b.reqs, b.servers;
    BackSet(b.servers, s, b.servers[s].(up := false));
    b.NameserverFailed(s);
    NsFailed(b.heads, b.waiting, was, b.reqs, before, b.servers, s);
  }

  lemma {:induction false} NsFailed(heads: seq<seq<Id>>, waiting: seq<Id>, a: map<Id, Req>, b: map<Id, Req>,
                                    before: map<Id, Server>, after: map<Id, Server>, s: Id)
    requires ListsOk(heads, waiting, a) && NsOk(a, before, {}) && s in before
    requires after == before[s := before[s].(up := false)]
    requires b == a || MovedOff(a, b, after, s, a.Keys)
    ensures ListsOk(heads, waiting, b) && NsOk(b, after, {}) && b.Keys == a.Keys
  {
    hide ListsOk;
    ListsStay(heads, waiting, a, b);
  }

  /** Each step leads from one scene to the next. */
  ghost predicate Story(trace: seq<Scene>, steps: seq<Step>, most: nat)
  {
    && |trace| == |steps| + 1
    && forall k, n | 0 <= k < n < |trace| && n == k + 1 :: Stepped(trace[k], steps[k], trace[n], most)
  }

  lemma {:induction false} StoryStarts(trace: seq<Scene>, steps: seq<Step>, most: nat)
    requires |trace| == 1
    ensures Story(trace, steps[..0], most)
  {
  }

  lemma {:induction false} StoryGoesOn(trace: seq<Scene>, steps: seq<Step>, i: nat, next: Scene, most: nat)
    requires i < |steps| && Story(trace, steps[..i], most) && Stepped(trace[i], steps[i], next, most)
    ensures Story(trace + [next], steps[..i + 1], most)
  {
    hide Stepped;
  }

  /**
   Every run of an evdns_base keeps all its requests in the one list where they
   belong, under ids that are all different, with counters that agree, and
   neither loses a request nor invents one.
  */
  method Run(steps: seq<Step>) returns (b: Base, ghost trace: seq<Scene>)
    ensures fresh(b) && b.Valid() && MustLive(steps) <= b.reqs.Keys <= MayLive(steps)
    ensures Story(trace, steps, b.maxTimeouts) && trace[0] == Scene(map[], map[]) && trace[|steps|] == SceneOf(b)
  {
    hide Stepped, Story;
    b := new Base();
    trace := [SceneOf(b)];
    StoryStarts(trace, steps, b.maxTimeouts);
    var i: nat := 0;
    while i < |steps|
      invariant i <= |steps| && fresh(b) && b.Valid()
      invariant MustLive(steps[..i]) <= b.reqs.Keys <= MayLive(steps[..i])
      invariant |trace| == i + 1 && Story(trace, steps[..i], b.maxTimeouts)
      invariant trace[0] == Scene(map[], map[]) && trace[i] == SceneOf(b)
    {
      assert steps[..i + 1][..i] == steps[..i];
      Perform(b, steps[i]);
      StoryGoesOn(trace, steps, i, SceneOf(b), b.maxTimeouts);
      trace := trace + [SceneOf(b)];
      i := i + 1;
    }
    assert steps[..i] == steps;
  }

  // ---------- timeouts in a row ----------

  /** The step counts a timeout against nameserver `s`. */
  predicate Blames(a: Scene, step: Step, s: Id)
  {
    step.Late? && Timed(a, step.id) && a.reqs[step.id].ns == Some(s)
  }

  /** The step makes the timeouts of `s` count anew, or brings it back up, or forgets it. */
  predicate Clears(a: Scene, step: Step, s: Id)
  {
    match step
    case Heard(x) => x == s
    case Back(x) => x == s
    case Answer(id, isUp) => isUp && Flying(a, id) && a.reqs[id].ns == Some(s)
    case Suspend => true
    case _ => false
  }

  /** The timeouts counted against `s` in the first `n` steps. */
  function TimeoutsOf(trace: seq<Scene>, steps: seq<Step>, s: Id, n: nat): nat
    requires n <= |steps| && n <= |trace|
  {
    if n == 0 then 0 else TimeoutsOf(trace, steps, s, n - 1) + if Blames(trace[n - 1], steps[n - 1], s) then 1 else 0
  }

  lemma {:induction false} OneStep(a: Scene, step: Step, b: Scene, s: Id, most: nat, n: nat)
    requires Stepped(a, step, b, most) && s in a.servers && !Clears(a, step, s)
    requires a.servers[s].up ==> n <= a.servers[s].timedOut && (n > 0 ==> a.servers[s].timedOut <= most)
    ensures s in b.servers
    ensures var m := n + if Blames(a, step, s) then 1 else 0;
            b.servers[s].up ==> m <= b.servers[s].timedOut && (m > 0 ==> b.servers[s].timedOut <= most)
  {
  }

  lemma {:induction false} Counted(trace: seq<Scene>, steps: seq<Step>, s: Id, most: nat, n: nat)
    requires Story(trace, steps, most) && n <= |steps| && s in trace[0].servers
    requires forall k | 0 <= k < n :: !Clears(trace[k], steps[k], s)
    ensures s in trace[n].servers
    ensures var v, count := trace[n].servers[s], TimeoutsOf(trace, steps, s, n);
            v.up ==> count <= v.timedOut && (count > 0 ==> v.timedOut <= most)
  {
    hide Stepped, Clears, Blames;
    if n > 0 {
      Counted(trace, steps, s, most, n - 1);
      OneStep(trace[n - 1], steps[n - 1], trace[n], s, most, TimeoutsOf(trace, steps, s, n - 1));
    }
  }

  /**
   A nameserver that is not heard of, nor brought back, is down after one timeout
   more than are allowed in a row, whichever requests they were of.
  */
  lemma {:induction false} SilentGoesDown(trace: seq<Scene>, steps: seq<Step>, s: Id, most: nat)
    requires Story(trace, steps, most) && s in trace[0].servers
    requires forall k | 0 <= k < |steps| :: !Clears(trace[k], steps[k], s)
    requires TimeoutsOf(trace, steps, s, |steps|) > most
    ensures s in trace[|steps|].servers && !trace[|steps|].servers[s].up
  {
    Counted(trace, steps, s, most, |steps|);
  }

  /** As many picks as there are nameservers, all of them up, give each its turn. */
  method Rounds(b: Base) returns (picks: seq<Id>)
    requires b.Valid() && forall s | s in b.servers :: b.servers[s].up
    modifies b`ring
    ensures picks == old(b.ring) && b.ring == old(b.ring)
  {
    hide ListsOk, NsOk, Total, Good, ServersOk;
    picks := [];
    ghost var ring := b.ring;
    RingKnown(ring, b.servers, b.good);
    var i, n := 0, |b.ring|;
    while i < n
      invariant i <= n == |ring| && picks == ring[..i] && b.ring == ring[i..] + ring[..i]
      invariant ServersOk(b.ring, b.servers, b.good)
    {
      ghost var before := b.ring;
      assert before[0] == ring[i];
      var s := b.NameserverPick();
      AllUp(before, b.servers, b.ring, s.value);
      assert before[1..] + before[..1] == ring[i + 1..] + ring[..i + 1];
      picks := picks + [s.value];
      i := i + 1;
    }
  }

  lemma {:induction false} AllUp(before: seq<Id>, servers: map<Id, Server>, after: seq<Id>, s: Id)
    requires Picked(before, servers, after, s) && before != [] && before[0] in servers && servers[before[0]].up
    ensures s == before[0] && after == before[1..] + before[..1]
  {
    var k: nat :| k < |before| && PickedAt(before, servers, after, s, k);
    assert k == 0;
  }
}
