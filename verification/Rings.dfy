/**
 The circular lists of evdns.c, link by link: inserting at the tail and
 removing anywhere are what the sequences of RequestState say they are.
*/
module Rings {
  class Node {
    var next: Node?
    var prev: Node?

    constructor ()
      ensures next == null && prev == null
    {
      next, prev := null, null;
    }
  }

  function Succ(i: nat, n: nat): (j: nat)
    requires i < n
    ensures j < n
  {
    if i + 1 == n then 0 else i + 1
  }

  /** From the head on, the ring consists of exactly these nodes, linked both ways. */
  ghost predicate Ring(head: Node?, s: seq<Node>)
    reads s
  {
    && (forall i, j | 0 <= i < j < |s| :: s[i] != s[j])
    && (if s == [] then head == null else head == s[0])
    && forall i, j | 0 <= i < |s| && j == Succ(i, |s|) :: s[i].next == s[j] && s[j].prev == s[i]
  }

  /** evdns_request_insert: into the tail. */
  method Insert(req: Node, head: Node?, ghost s: seq<Node>) returns (newHead: Node)
    requires Ring(head, s) && req !in s
    modifies req, s
    ensures Ring(newHead, s + [req]) && (head != null ==> newHead == head)
  {
    if head == null {
      req.next, req.prev := req, req;
      return req;
    }
    ghost var n := |s|;
    assert Succ(n - 1, n) == 0;
    var last := head.prev;
    assert last == s[n - 1];
    req.prev := last;
    last.next := req;
    req.next := head;
    head.prev := req;
    newHead := head;
    Inserted(head, s, req);
  }

  lemma {:induction false} Inserted(head: Node, s: seq<Node>, req: Node)
    requires req !in s && s != [] && head == s[0] && forall i, j | 0 <= i < j < |s| :: s[i] != s[j]
    requires req.prev == s[|s| - 1] && req.next == head && s[|s| - 1].next == req && head.prev == req
    requires forall i, j | 0 <= i < |s| - 1 && j == Succ(i, |s|) :: s[i].next == s[j] && s[j].prev == s[i]
    ensures Ring(head, s + [req])
  {
    var t := s + [req];
    forall i, j | 0 <= i < |t| && j == Succ(i, |t|)
      ensures t[i].next == t[j] && t[j].prev == t[i]
    {
      if i < |s| - 1 {
        assert j == Succ(i, |s|);
      }
    }
  }

  /** evdns_request_remove: the node at place `k` leaves; when it was the head, the next one is. */
  method Remove(req: Node, head: Node?, ghost s: seq<Node>, ghost k: nat) returns (newHead: Node?)
    requires Ring(head, s) && k < |s| && s[k] == req
    modifies s
    ensures Ring(newHead, s[..k] + s[k + 1..]) && req.next == null && req.prev == null
  {
    ghost var n := |s|;
    ghost var before: nat := if k == 0 then n - 1 else k - 1;
    assert Succ(before, n) == k && k == Succ(before, n);
    assert req.next == s[Succ(k, n)];
    if req.next == req {
      newHead := null;
      req.next, req.prev := null, null;
      assert s[..k] + s[k + 1..] == [];
      return;
    }
    newHead := if head == req then req.next else head;
    var after, prior := req.next, req.prev;
    assert prior == s[before];
    after.prev := prior;
    prior.next := after;
    req.next, req.prev := null, null;
    Removed(head, s, k, before);
  }

  lemma {:induction false} Removed(head: Node?, s: seq<Node>, k: nat, before: nat)
    requires k < |s| && |s| > 1 && before < |s| && Succ(before, |s|) == k && head == s[0]
    requires forall i, j | 0 <= i < j < |s| :: s[i] != s[j]
    requires s[before].next == s[Succ(k, |s|)] && s[Succ(k, |s|)].prev == s[before]
    requires forall i, j | 0 <= i < |s| && i != before && i != k && j == Succ(i, |s|) :: s[i].next == s[j] && s[j].prev == s[i]
    ensures Ring(if k == 0 then s[1] else head, s[..k] + s[k + 1..])
  {
    hide Succ;
    var t := s[..k] + s[k + 1..];
    forall i, j | 0 <= i < |t| && j == Succ(i, |t|)
      ensures t[i].next == t[j] && t[j].prev == t[i]
    {
      var a, b := Skip(i, k), Skip(j, k);
      SkipSucc(|s|, k, i, j, before);
      assert t[i] == s[a] && t[j] == s[b];
    }
    Distinctly(s, k);
  }

  /** Where place `i` was before place `k` was taken out. */
  function Skip(i: nat, k: nat): nat
  {
    if i < k then i else i + 1
  }

  lemma {:induction false} SkipSucc(n: nat, k: nat, i: nat, j: nat, before: nat)
    requires n > 1 && k < n && before < n && Succ(before, n) == k && i < n - 1 && j == Succ(i, n - 1)
    ensures Skip(i, k) != k && Skip(i, k) < n && Skip(j, k) < n
    ensures Skip(j, k) == if Skip(i, k) == before then Succ(k, n) else Succ(Skip(i, k), n)
  {
  }

  lemma {:induction false} Distinctly(s: seq<Node>, k: nat)
    requires k < |s| && forall i, j | 0 <= i < j < |s| :: s[i] != s[j]
    ensures var t := s[..k] + s[k + 1..]; forall i, j | 0 <= i < j < |t| :: t[i] != t[j]
  {
    var t := s[..k] + s[k + 1..];
    forall i, j | 0 <= i < j < |t|
      ensures t[i] != t[j]
    {
      assert t[i] == s[Skip(i, k)] && t[j] == s[Skip(j, k)];
    }
  }
}
