/**
 evdns_getaddrinfo: one lookup that runs an A and an AAAA request side by side
 (evdns.c).  Replies, the skew timeout and the user's cancel come in any order.
*/
module GetAddrInfo {
  /** evdns and getaddrinfo error codes */
  datatype DnsError = NoError | NotExist | Canceled | OtherDns(code: nat)
  datatype Eai = Ok | NoData | NoName | Fail | Again | Cancel

  /** What a sub-request reports; addresses only count without an error. */
  datatype Result<A> = Result(error: DnsError, addrs: seq<A>)

  /** A sub-request as evdns sees it: waiting for a reply, callback scheduled, callback run. */
  datatype Sub<A> = NotLaunched | Working | Scheduled(result: Result<A>) | Reported(result: Result<A>)

  /** What the user's callback is told. */
  datatype Told<A> = Told(err: Eai, addrs: seq<A>)

  /** evdns_err_to_getaddrinfo_err, and an empty answer is an error, too */
  function ErrOf<A>(r: Result<A>): Eai
  {
    match r.error
    case NoError => if r.addrs == [] then NoData else Ok
    case NotExist => NoName
    case _ => Fail
  }

  /** The addresses a sub-request contributes. */
  function Found<A>(s: Sub<A>): seq<A>
  {
    if s.Reported? && s.result.error.NoError? then s.result.addrs else []
  }

  predicate Open<A>(s: Sub<A>)
  {
    s.Working? || s.Scheduled?
  }

  class Lookup<A(!new)> {
    // struct evdns_getaddrinfo_request
    var r4: bool            // ipv4_request.r is not null
    var r6: bool
    var userCb: bool        // user_cb is not null
    var pendingResult: seq<A>
    var pendingError: Eai
    var userCanceled: bool
    var requestDone: bool
    var timer: bool         // the timeout event is pending
    // the sub-requests, the calls of the user's callback and of free
    var sub4: Sub<A>
    var sub6: Sub<A>
    var calls: seq<Told<A>>
    var frees: nat
    ghost var timedOut: bool
    ghost var last: Sub<A>      // the sub-request that reported last
    ghost var early: Sub<A>     // the one that had reported at the timeout

    /** Every sub-request that was launched has reported. */
    predicate AllReported()
      reads this
    {
      !Open(sub4) && !Open(sub6)
    }

    /** Who is launched, who has reported, and what the flags say about it. */
    ghost predicate Shape()
      reads this
    {
      && (r4 <==> Open(sub4)) && (r6 <==> Open(sub6)) && (!sub4.NotLaunched? || !sub6.NotLaunched?)
      && (timedOut ==> sub4.Reported? || sub6.Reported?)
      && (!AllReported() ==> !requestDone)
      && (Withdrawn(sub4) || Withdrawn(sub6) ==> userCanceled || timedOut)
    }

    /** Freed once, when everything has reported and not before; the user told once by then. */
    ghost predicate Once()
      reads this
    {
      && frees == (if AllReported() then 1 else 0)
      && |calls| <= 1 && (AllReported() ==> |calls| == 1)
      && (!AllReported() ==> (userCb <==> calls == []))
      && (!AllReported() && calls != [] ==> timedOut && (sub4.Scheduled? || sub6.Scheduled?))
      && (timedOut ==> calls != [])
    }

    /** The result of the first of two sub-requests is kept while the timer runs. */
    ghost predicate Waiting()
      reads this
    {
      && (timer ==> userCb && !AllReported() && (sub4.Reported? || sub6.Reported?)
                    && Kept(if sub4.Reported? then sub4 else sub6))
      && (!sub4.Reported? && !sub6.Reported? ==> pendingResult == [] && pendingError == Ok)
      && ((sub4.Reported? || sub6.Reported?) && !AllReported() && !timedOut && !userCanceled ==> timer)
    }

    ghost predicate Kept(s: Sub<A>)
      requires s.Reported?
      reads this
    {
      if ErrOf(s.result) == Ok then pendingResult == s.result.addrs else pendingResult == [] && pendingError == ErrOf(s.result)
    }

    /** What the user was told is what the sub-requests found. */
    ghost predicate Right()
      reads this
    {
      calls != [] ==>
        var told := calls[0];
        if timedOut then early.Reported? && told == Told(ErrOf(early.result), Found(early)) && (early == sub4 || early == sub6)
        else if userCanceled then told == Told(Cancel, [])
        else if Found(sub4) + Found(sub6) != [] then told == Told(Ok, Found(sub4) + Found(sub6))
        else last.Reported? && (last == sub4 || last == sub6) && told == Told(ErrOf(last.result), [])
    }

    ghost predicate Valid()
      reads this
    {
      Shape() && Once() && Waiting() && Right()
    }

    /** evdns_getaddrinfo, once the requests are launched. */
    constructor (launch4: bool, launch6: bool)
      requires launch4 || launch6
      ensures Valid() && !AllReported() && calls == [] && frees == 0
      ensures sub4 == (if launch4 then Working else NotLaunched) && sub6 == (if launch6 then Working else NotLaunched)
    {
      r4, r6, userCb, pendingResult, pendingError := launch4, launch6, true, [], Ok;
      userCanceled, requestDone, timer := false, false, false;
      sub4 := if launch4 then Working else NotLaunched;
      sub6 := if launch6 then Working else NotLaunched;
      calls, frees, timedOut, last, early := [], 0, false, NotLaunched, NotLaunched;
    }

    /** evdns has the outcome of a sub-request: its callback is scheduled. */
    method Deliver(v4: bool, result: Result<A>)
      requires Valid() && (if v4 then sub4 else sub6).Working? && !result.error.Canceled?
      modifies this
      ensures Valid() && calls == old(calls) && frees == old(frees)
      ensures (if v4 then sub4 else sub6) == Scheduled(result) && (if v4 then sub6 == old(sub6) else sub4 == old(sub4))
    {
      if v4 {
        sub4 := Scheduled(result);
      } else {
        sub6 := Scheduled(result);
      }
    }

    /** evdns_getaddrinfo_cancel, and evdns_cancel_request of both sub-requests */
    method UserCancel()
      requires (r4 <==> Open(sub4)) && (r6 <==> Open(sub6))
      modifies this`timer, this`userCanceled, this`sub4, this`sub6
      ensures requestDone ==>
        timer == old(timer) && userCanceled == old(userCanceled) && sub4 == old(sub4) && sub6 == old(sub6)
      ensures !requestDone ==> !timer && userCanceled && sub4 == CancelOf(old(sub4)) && sub6 == CancelOf(old(sub6))
    {
      if requestDone {
        return;
      }
      timer, userCanceled := false, true;
      if r4 {
        sub4 := CancelOf(sub4);
      }
      if r6 {
        sub6 := CancelOf(sub6);
      }
    }

    /** The user's callback; it may cancel the request it is being told about. */
    method CallUser(err: Eai, addrs: seq<A>, cancelInside: bool)
      requires userCb && (r4 <==> Open(sub4)) && (r6 <==> Open(sub6))
      modifies this`calls, this`timer, this`userCanceled, this`sub4, this`sub6
      ensures calls == old(calls) + [Told(err, addrs)]
      ensures requestDone || !cancelInside ==>
        timer == old(timer) && userCanceled == old(userCanceled) && sub4 == old(sub4) && sub6 == old(sub6)
      ensures !requestDone && cancelInside ==>
        !timer && userCanceled && sub4 == CancelOf(old(sub4)) && sub6 == CancelOf(old(sub6))
    {
      calls := calls + [Told(err, addrs)];
      if cancelInside {
        UserCancel();
      }
    }

    /** free_getaddrinfo_request */
    method Free()
      modifies this`timer, this`frees, this`pendingResult
      ensures !timer && frees == old(frees) + 1
    {
      pendingResult, timer, frees := [], false, frees + 1;
    }

    /** evdns_getaddrinfo_timeout_cb */
    method Timeout(cancelInside: bool)
      requires Valid() && timer
      modifies this
      ensures Valid() && |calls| == 1 && !AllReported() && frees == 0
    {
      timer := false;
      early, timedOut := if sub4.Reported? then sub4 else sub6, true;
      var v4TimedOut, v6TimedOut := false, false;
      if r4 {
        sub4, v4TimedOut := CancelOf(sub4), true;
      }
      if r6 {
        sub6, v6TimedOut := CancelOf(sub6), true;
      }
      assert !v4TimedOut || !v6TimedOut;
      if pendingResult != [] {
        CallUser(Ok, pendingResult, cancelInside);
        pendingResult := [];
      } else {
        CallUser(if pendingError == Ok then Again else pendingError, [], cancelInside);
      }
      userCb := false;
      if !v4TimedOut && !v6TimedOut {
        assert false; // the timer only runs while a sub-request is open
      }
    }

    /** In gotresolve, once the sub-request is marked as reported and the user is still to be told. */
    ghost predicate Resolving(v4: bool, result: Result<A>)
      reads this
    {
      var mine, other := if v4 then sub4 else sub6, if v4 then sub6 else sub4;
      && (r4 <==> Open(sub4)) && (r6 <==> Open(sub6)) && mine == Reported(result) == last
      && userCb && calls == [] && frees == 0 && !timedOut && requestDone == !Open(other)
      && (Withdrawn(other) || result.error.Canceled? ==> userCanceled)
      && (!other.Reported? ==> pendingResult == [] && pendingError == Ok && !timer)
      && (other.Reported? && !userCanceled ==> Kept(other))
    }

    /** The sub-request failed. */
    method GotError(v4: bool, result: Result<A>, other: bool, canceled: bool, cancelInside: bool)
      requires Resolving(v4, result) && other == (if v4 then r6 else r4) && canceled == userCanceled
        && ErrOf(result) != Ok
      modifies this
      ensures Valid() && Reported(result) == (if v4 then sub4 else sub6)
      ensures if v4 then sub6 == old(sub6) || sub6 == CancelOf(old(sub6)) else sub4 == old(sub4) || sub4 == CancelOf(old(sub4))
    {
      var err := ErrOf(result);
      if other {
        timer, pendingError := true, err;
        return;
      }
      if canceled {
        CallUser(Cancel, [], cancelInside);
      } else if pendingResult != [] {
        CallUser(Ok, pendingResult, cancelInside);
        pendingResult := [];
      } else {
        if pendingError != Ok {
          err := Merge(err, pendingError);
        }
        CallUser(err, [], cancelInside);
      }
      Free();
    }

    /** The sub-request found addresses. */
    method GotAnswer(v4: bool, result: Result<A>, other: bool, canceled: bool, cancelInside: bool)
      requires Resolving(v4, result) && other == (if v4 then r6 else r4) && canceled == userCanceled
        && ErrOf(result) == Ok
      modifies this
      ensures Valid() && Reported(result) == (if v4 then sub4 else sub6)
      ensures if v4 then sub6 == old(sub6) || sub6 == CancelOf(old(sub6)) else sub4 == old(sub4) || sub4 == CancelOf(old(sub4))
    {
      if canceled {
        if other {
          return;
        }
        CallUser(Cancel, [], cancelInside);
        Free();
        return;
      }
      var res := result.addrs;
      if other {
        timer, pendingResult := true, res;
        return;
      }
      if pendingResult != [] {
        res := if v4 then res + pendingResult else pendingResult + res;
        pendingResult := [];
      }
      CallUser(Ok, res, cancelInside);
      Free();
    }

    /** evdns_getaddrinfo_gotresolve: the callback of one sub-request runs. */
    method GotResolve(v4: bool, cancelInside: bool)
      requires Valid() && (if v4 then sub4 else sub6).Scheduled?
      modifies this
      ensures Valid()
      ensures (if v4 then sub4 else sub6) == Reported(old(if v4 then sub4 else sub6).result)
      ensures if v4 then sub6 == old(sub6) || sub6 == CancelOf(old(sub6)) else sub4 == old(sub4) || sub4 == CancelOf(old(sub4))
      ensures old(calls) != [] ==> calls == old(calls)
    {
      var other, canceled := if v4 then r6 else r4, userCanceled;
      var result := (if v4 then sub4 else sub6).result;
      if !other {
        requestDone := true;
      }
      if v4 {
        r4, sub4 := false, Reported(result);
      } else {
        r6, sub6 := false, Reported(result);
      }
      last := Reported(result);
      if result.error.Canceled? && !canceled {
        if !other {
          Free();
        }
        return;
      }
      if !userCb {
        Free();
        return;
      }
      if ErrOf(result) != Ok {
        GotError(v4, result, other, canceled, cancelInside);
      } else {
        GotAnswer(v4, result, other, canceled, cancelInside);
      }
    }

    /** The user cancels, in any state in which the request is not yet freed. */
    method CancelByUser()
      requires Valid() && !AllReported()
      modifies this
      ensures Valid() && calls == old(calls) && frees == old(frees)
      ensures !sub4.Working? && !sub6.Working?
    {
      UserCancel();
    }
  }

  /** getaddrinfo_merge_err */
  function Merge(e1: Eai, e2: Eai): Eai
  {
    if e1 == Ok then e2 else e1
  }

  /** The sub-request's callback is to report a cancellation. */
  predicate Withdrawn<A>(s: Sub<A>)
  {
    s.Scheduled? && s.result.error.Canceled?
  }

  /** evdns_cancel_request: does nothing once the callback is scheduled. */
  function CancelOf<A>(s: Sub<A>): Sub<A>
  {
    if s.Working? then Scheduled(Result(Canceled, [])) else s
  }

  // ---------- what the user is told ----------

  /** The sub-request that decides what the user is told: the last one, or the one that had reported at the timeout. */
  ghost function Decider<A(!new)>(data: Lookup<A>): Sub<A>
    reads data
  {
    if data.timedOut then data.early else data.last
  }

  /**
   Without addresses, and if nobody has canceled, the user is told that the
   name does not exist, that there is no data, or of a failure, as the deciding
   sub-request has found; with addresses, that all is well.
  */
  lemma {:induction false} ToldCode<A(!new)>(data: Lookup<A>)
    requires data.Valid() && data.calls != [] && (data.timedOut || !data.userCanceled)
    ensures var told, one := data.calls[0], Decider(data);
            && (told.err == Ok <==> told.addrs != [])
            && (told.addrs == [] ==>
                  && one.Reported? && (one == data.sub4 || one == data.sub6)
                  && (told.err == NoName <==> one.result.error == NotExist)
                  && (told.err == NoData <==> one.result.error == NoError && one.result.addrs == [])
                  && (told.err == Fail <==> one.result.error != NotExist && one.result.error != NoError))
  {
  }

  /** The name exists nowhere, and that is what the user is told, once. */
  lemma {:induction false} NowhereFound<A(!new)>(data: Lookup<A>)
    requires data.Valid() && data.AllReported() && !data.userCanceled
    requires data.sub4.Reported? ==> data.sub4.result.error == NotExist
    requires data.sub6.Reported? ==> data.sub6.result.error == NotExist
    ensures data.calls == [Told(NoName, [])]
  {
    ToldCode(data);
  }

  // ---------- whole lookups ----------

  /** The end of evdns_getaddrinfo: without a launched request the user is told at once and nothing is left to free. */
  method Launch<A(!new)>(launch4: bool, launch6: bool) returns (data: Lookup?<A>, told: seq<Told<A>>)
    ensures data == null <==> !launch4 && !launch6
    ensures told == if data == null then [Told(Fail, [])] else []
    ensures data != null ==> fresh(data) && data.Valid() && !data.AllReported()
  {
    if launch4 || launch6 {
      data := new Lookup(launch4, launch6);
      told := [];
    } else {
      data, told := null, [Told(Fail, [])];
    }
  }

  datatype Move<A> = Reply(v4: bool, result: Result<A>) | Callback(v4: bool,
      cancelInside: bool) | Skew(cancelInside: bool) | UserCancels

  /** Any moves in any order, each made if it is possible at that time. */
  method Play<A(!new)>(data: Lookup<A>, moves: seq<Move<A>>)
    requires data.Valid()
    modifies data
    ensures data.Valid()
  {
    hide Lookup.Shape, Lookup.Once, Lookup.Waiting, Lookup.Right;
    var i := 0;
    while i < |moves|
      invariant data.Valid()
    {
      match moves[i] {
      case Reply(v4, result) =>
        if (if v4 then data.sub4 else data.sub6).Working? && !result.error.Canceled? {
          data.Deliver(v4, result);
        }
      case Callback(v4, inside) =>
        if (if v4 then data.sub4 else data.sub6).Scheduled? {
          data.GotResolve(v4, inside);
        }
      case Skew(inside) =>
        if data.timer {
          data.Timeout(inside);
        }
      case UserCancels =>
        if !data.AllReported() {
          data.CancelByUser();
        }
      }
      i := i + 1;
    }
  }

  /**
   Whatever has happened, once the outstanding callbacks have run the user has been told once and
   the request is freed once.
  */
  method Settle<A(!new)>(data: Lookup<A>, late: Result<A>, inside: bool)
    requires data.Valid() && !late.error.Canceled?
    modifies data
    ensures data.Valid() && data.AllReported() && data.frees == 1 && |data.calls| == 1
    ensures old(data.calls) != [] ==> data.calls == old(data.calls)
  {
    if data.sub4.Working? {
      data.Deliver(true, late);
    }
    if data.sub4.Scheduled? {
      data.GotResolve(true, inside);
    }
    if data.sub6.Working? {
      data.Deliver(false, late);
    }
    if data.sub6.Scheduled? {
      data.GotResolve(false, inside);
    }
  }
}
