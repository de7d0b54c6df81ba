/**
 The heap of timeouts (minheap-internal.h): an array in which every event
 knows its own place. It keeps a set of events and finds the earliest one.
*/
module MinHeap {
  import opened Options

  type Id = nat

  function Parent(k: nat): (p: nat)
    requires k > 0
    ensures p < k
  {
    (k - 1) / 2
  }

  /** The event at `k` is not earlier than the one above it. */
  ghost predicate BelowParent(s: seq<Id>, key: map<Id, int>, k: nat)
    requires 0 < k < |s|
  {
    s[k] in key && s[Parent(k)] in key && key[s[Parent(k)]] <= key[s[k]]
  }

  /** If `hole` is above `k`, the event above `hole` is not later than the one at `k`. */
  ghost predicate BelowGrandparent(s: seq<Id>, key: map<Id, int>, hole: nat, k: nat)
    requires 0 < k < |s|
  {
    Parent(k) == hole && 0 < hole < |s| ==> s[k] in key && s[Parent(hole)] in key && key[s[Parent(hole)]] <= key[s[k]]
  }

  /** Heap order of the first `n` places, apart from a hole (none when `hole` is `n` or more). */
  ghost predicate Ordered(s: seq<Id>, key: map<Id, int>, n: nat, hole: nat)
    requires n <= |s|
  {
    && (forall k | 0 < k < n && k != hole && Parent(k) != hole :: BelowParent(s, key, k))
    && (forall k | 0 < k < n && k != hole :: BelowGrandparent(s, key, hole, k))
  }

  /** The event at `k` knows its place. */
  ghost predicate KnowsPlace(s: seq<Id>, idx: map<Id, int>, k: nat)
    requires k < |s|
  {
    s[k] in idx && idx[s[k]] == k
  }

  /** Event `e` is where its index says, or nowhere. */
  ghost predicate InPlace(s: seq<Id>, idx: map<Id, int>, n: nat, hole: nat, e: Id)
    requires n <= |s| && e in idx
  {
    idx[e] == -1 || (0 <= idx[e] < n && idx[e] != hole && s[idx[e]] == e)
  }

  /** Indices and places agree, apart from the hole and from the events in `out`, which are not in the array. */
  ghost predicate Indexed(s: seq<Id>, idx: map<Id, int>, key: map<Id, int>, n: nat, hole: nat, out: set<Id>)
  {
    && n <= |s| && idx.Keys == key.Keys
    && (forall k | 0 <= k < n && k != hole :: KnowsPlace(s, idx, k) && s[k] !in out)
    && (forall e | e in idx && e !in out :: InPlace(s, idx, n, hole, e))
  }

  /** Event `e` may go into the hole as far as the events below it are concerned. */
  ghost predicate AboveChildren(s: seq<Id>, key: map<Id, int>, n: nat, hole: nat, e: Id)
    requires n <= |s| && e in key
  {
    forall k | 0 < k < n && k != hole && s[k] in key :: Parent(k) == hole ==> key[e] <= key[s[k]]
  }

  /** Event `e` may go into the hole as far as the event above it is concerned. */
  ghost predicate BelowAbove(s: seq<Id>, key: map<Id, int>, hole: nat, e: Id)
    requires e in key && hole <= |s|
  {
    hole > 0 ==> s[Parent(hole)] in key && key[s[Parent(hole)]] <= key[e]
  }

  // ---------- the steps ----------

  /** The event above the hole moves down into it. */
  lemma {:induction false} UpStep(s: seq<Id>, idx: map<Id, int>, key: map<Id, int>, n: nat, hole: nat, e: Id,
      out: set<Id>)
    requires 0 < hole < n <= |s| && Indexed(s, idx, key, n, hole, out) && Ordered(s, key, n, hole)
    requires e in out && e in key && AboveChildren(s, key, n, hole, e)
    requires s[Parent(hole)] in key && key[s[Parent(hole)]] > key[e]
    ensures var p := Parent(hole); var s', idx' := s[hole := s[p]], idx[s[p] := hole];
            Indexed(s', idx', key, n, p, out) && Ordered(s', key, n, p) && AboveChildren(s', key, n, p, e)
  {
    var p := Parent(hole);
    var s', idx' := s[hole := s[p]], idx[s[p] := hole];
    assert KnowsPlace(s, idx, p);
    IndexMoved(s, idx, key, n, hole, p, out);
    forall k | 0 < k < n && k != p && Parent(k) != p
      ensures BelowParent(s', key, k)
    {
      if Parent(k) == hole {
        assert BelowGrandparent(s, key, hole, k);
      } else {
        assert BelowParent(s, key, k);
      }
    }
    forall k | 0 < k < n && k != p
      ensures BelowGrandparent(s', key, p, k)
    {
      if Parent(k) == p && 0 < p {
        assert BelowParent(s, key, p);
        if k != hole {
          assert BelowParent(s, key, k);
        }
      }
    }
    forall k | 0 < k < n && k != p && s'[k] in key && Parent(k) == p
      ensures key[e] <= key[s'[k]]
    {
      if k != hole {
        assert BelowParent(s, key, k);
      }
    }
  }

  /** The event at `c` moves to the hole, and the hole to `c`. */
  lemma {:induction false} IndexMoved(s: seq<Id>, idx: map<Id, int>, key: map<Id, int>, n: nat, hole: nat, c: nat,
      out: set<Id>)
    requires Indexed(s, idx, key, n, hole, out) && hole < n && c < n && c != hole
    ensures Indexed(s[hole := s[c]], idx[s[c] := hole], key, n, c, out)
  {
    var s', idx' := s[hole := s[c]], idx[s[c] := hole];
    assert KnowsPlace(s, idx, c);
    forall k | 0 <= k < n && k != c
      ensures KnowsPlace(s', idx', k) && s'[k] !in out
    {
      if k != hole {
        assert KnowsPlace(s, idx, k);
      }
    }
    forall x | x in idx' && x !in out
      ensures InPlace(s', idx', n, c, x)
    {
      assert InPlace(s, idx, n, hole, x);
    }
  }

  /** The earlier child moves up into the hole. */
  lemma {:induction false} DownStep(s: seq<Id>, idx: map<Id, int>, key: map<Id, int>, n: nat, hole: nat, c: nat,
      e: Id, out: set<Id>)
    requires hole < c < n <= |s| && Parent(c) == hole && Indexed(s, idx, key, n, hole, out) && Ordered(s, key, n, hole)
    requires e in out && e in key && s[c] in key && key[s[c]] < key[e]
    requires forall k | 0 < k < n && Parent(k) == hole :: s[k] in key && key[s[c]] <= key[s[k]]
    ensures var s', idx' := s[hole := s[c]], idx[s[c] := hole];
            Indexed(s', idx', key, n, c, out) && Ordered(s', key, n, c) && BelowAbove(s', key, c, e)
  {
    var s', idx' := s[hole := s[c]], idx[s[c] := hole];
    IndexMoved(s, idx, key, n, hole, c, out);
    forall k | 0 < k < n && k != c && Parent(k) != c
      ensures BelowParent(s', key, k)
    {
      if k == hole {
        assert BelowGrandparent(s, key, hole, c);
      } else if Parent(k) != hole {
        assert BelowParent(s, key, k);
      }
    }
    forall k | 0 < k < n && k != c
      ensures BelowGrandparent(s', key, c, k)
    {
      if Parent(k) == c {
        assert BelowParent(s, key, k);
      }
    }
  }

  /** Event `e` fills the hole. */
  lemma {:induction false} Filled(s: seq<Id>, idx: map<Id, int>, key: map<Id, int>, n: nat, hole: nat, e: Id,
      out: set<Id>)
    requires hole < n && Indexed(s, idx, key, n, hole, out + {e}) && e !in out && Ordered(s, key, n, hole)
    requires e in key && AboveChildren(s, key, n, hole, e) && BelowAbove(s, key, hole, e)
    ensures var s', idx' := s[hole := e], idx[e := hole];
            Indexed(s', idx', key, n, n, out) && Ordered(s', key, n, n)
  {
    var s', idx' := s[hole := e], idx[e := hole];
    forall k | 0 <= k < n
      ensures KnowsPlace(s', idx', k) && s'[k] !in out
    {
      if k != hole {
        assert KnowsPlace(s, idx, k);
      }
    }
    forall x | x in idx' && x !in out
      ensures InPlace(s', idx', n, n, x)
    {
      if x != e {
        assert InPlace(s, idx, n, hole, x);
      }
    }
    forall k | 0 < k < n
      ensures BelowParent(s', key, k)
    {
      if k != hole {
        assert KnowsPlace(s, idx, k);
        if Parent(k) != hole {
          assert BelowParent(s, key, k);
        }
      }
    }
  }

  /** The first event is the earliest. */
  lemma {:induction false} TopIsLeast(s: seq<Id>, key: map<Id, int>, n: nat, k: nat)
    requires k < n <= |s| && Ordered(s, key, n, n) && s[0] in key
    ensures s[k] in key && key[s[0]] <= key[s[k]]
  {
    if k > 0 {
      assert BelowParent(s, key, k);
      TopIsLeast(s, key, n, Parent(k));
    }
  }

  /** Moving all deadlines by the same amount, as a clock correction does, keeps the order. */
  lemma {:induction false} OrderShifted(s: seq<Id>, key: map<Id, int>, later: map<Id, int>, n: nat, off: int)
    requires n <= |s| && Ordered(s, key, n, n)
    requires later.Keys == key.Keys && forall e | e in key :: later[e] == key[e] - off
    ensures Ordered(s, later, n, n)
  {
    forall k | 0 < k < n
      ensures BelowParent(s, later, k)
    {
      assert BelowParent(s, key, k);
    }
  }

  // ---------- starting and ending ----------

  ghost predicate Whole(s: seq<Id>, idx: map<Id, int>, key: map<Id, int>, n: nat)
  {
    Indexed(s, idx, key, n, n, {}) && Ordered(s, key, n, n)
  }

  /** The events in the heap. */
  ghost function Members(idx: map<Id, int>): set<Id>
  {
    set e | e in idx && idx[e] != -1
  }

  /** No event but `e` enters or leaves. */
  ghost predicate SameMembers(before: map<Id, int>, after: map<Id, int>, e: Id)
  {
    before.Keys == after.Keys && forall x | x in before && x != e :: (after[x] == -1) == (before[x] == -1)
  }

  /** One place more, at the end, is a hole. */
  lemma {:induction false} HoleAtEnd(s: seq<Id>, t: seq<Id>, idx: map<Id, int>, key: map<Id, int>, n: nat, e: Id)
    requires Whole(s, idx, key, n) && n < |t| && s[..n] == t[..n] && e in key && idx[e] == -1
    ensures Indexed(t, idx, key, n + 1, n, {e}) && Ordered(t, key, n + 1, n) && AboveChildren(t, key, n + 1, n, e)
  {
    SamePrefix(s, t, idx, key, n);
    forall k | 0 <= k < n
      ensures KnowsPlace(t, idx, k) && t[k] != e
    {
      assert KnowsPlace(t, idx, k);
    }
    forall x | x in idx && x != e
      ensures InPlace(t, idx, n + 1, n, x)
    {
      assert InPlace(t, idx, n, n, x);
    }
    forall k | 0 < k < n
      ensures BelowParent(t, key, k)
    {
      assert Parent(k) != n;
    }
  }

  /** Only the first `n` places count. */
  lemma {:induction false} SamePrefix(s: seq<Id>, t: seq<Id>, idx: map<Id, int>, key: map<Id, int>, n: nat)
    requires Whole(s, idx, key, n) && n <= |t| && s[..n] == t[..n]
    ensures Whole(t, idx, key, n)
  {
    assert forall k | 0 <= k < n :: s[..n][k] == t[..n][k];
    forall k | 0 <= k < n
      ensures KnowsPlace(t, idx, k)
    {
      assert KnowsPlace(s, idx, k);
    }
    forall x | x in idx
      ensures InPlace(t, idx, n, n, x)
    {
      assert InPlace(s, idx, n, n, x);
    }
    forall k | 0 < k < n
      ensures BelowParent(t, key, k)
    {
      assert BelowParent(s, key, k);
    }
  }

  /** The place of `e` becomes a hole, and the last event is taken off to fill it. */
  lemma {:induction false} HoleInside(s: seq<Id>, idx: map<Id, int>, key: map<Id, int>, n: nat, e: Id)
    requires Whole(s, idx, key, n) && n > 0 && e in idx && 0 <= idx[e] < n - 1
    ensures var last, i := s[n - 1], idx[e];
            last != e && last in key && Indexed(s, idx, key, n - 1, i, {e} + {last}) && Ordered(s, key, n - 1, i)
            && (i > 0 ==> s[Parent(i)] in key) && (AboveChildren(s, key, n - 1, i, last) || BelowAbove(s, key, i, last))
            && (!BelowAbove(s, key, i, last) ==> AboveChildren(s, key, n - 1, i, last))
  {
    var last, i := s[n - 1], idx[e];
    assert KnowsPlace(s, idx, n - 1) && InPlace(s, idx, n, n, e);
    forall k | 0 <= k < n - 1 && k != i
      ensures KnowsPlace(s, idx, k) && s[k] !in {e} + {last}
    {
      assert KnowsPlace(s, idx, k);
    }
    forall x | x in idx && x !in {e} + {last}
      ensures InPlace(s, idx, n - 1, i, x)
    {
      assert InPlace(s, idx, n, n, x);
    }
    if i > 0 {
      assert BelowParent(s, key, i);
    }
    forall k | 0 < k < n - 1 && k != i
      ensures BelowGrandparent(s, key, i, k) && (Parent(k) != i ==> BelowParent(s, key, k))
    {
      assert BelowParent(s, key, k);
    }
  }

  /** An event that is not in the array any more forgets its place. */
  lemma {:induction false} Forgotten(s: seq<Id>, idx: map<Id, int>, key: map<Id, int>, n: nat, e: Id)
    requires Indexed(s, idx, key, n, n, {e}) && Ordered(s, key, n, n) && e in idx
    ensures Whole(s, idx[e := -1], key, n)
  {
    var idx' := idx[e := -1];
    forall k | 0 <= k < n
      ensures KnowsPlace(s, idx', k)
    {
      assert KnowsPlace(s, idx, k);
    }
    forall x | x in idx'
      ensures InPlace(s, idx', n, n, x)
    {
      if x != e {
        assert InPlace(s, idx, n, n, x);
      }
    }
  }

  /** Taking off the last event. */
  lemma {:induction false} LastOff(s: seq<Id>, idx: map<Id, int>, key: map<Id, int>, n: nat, e: Id)
    requires Whole(s, idx, key, n) && n > 0 && e in idx && idx[e] == n - 1
    ensures Whole(s, idx[e := -1], key, n - 1) && s[n - 1] == e
    ensures n > 1 ==> BelowParent(s, key, n - 1)
  {
    var idx' := idx[e := -1];
    assert InPlace(s, idx, n, n, e);
    forall k | 0 <= k < n - 1
      ensures KnowsPlace(s, idx', k)
    {
      assert KnowsPlace(s, idx, k);
    }
    forall x | x in idx'
      ensures InPlace(s, idx', n - 1, n - 1, x)
    {
      if x != e {
        assert InPlace(s, idx, n, n, x);
      }
    }
    forall k | 0 < k < n
      ensures BelowParent(s, key, k)
    {
    }
  }

  lemma {:induction false} Children(hole: nat, k: nat)
    requires k > 0 && Parent(k) == hole
    ensures k == 2 * hole + 1 || k == 2 * hole + 2
  {
  }

  /** The first event of a whole heap is in it, and is the earliest. */
  lemma {:induction false} TopLeast(s: seq<Id>, idx: map<Id, int>, key: map<Id, int>, n: nat)
    requires Whole(s, idx, key, n)
    ensures n == 0 <==> Members(idx) == {}
    ensures n > 0 ==> s[0] in Members(idx) && s[0] in key && idx[s[0]] == 0
    ensures n > 0 ==> forall e | e in Members(idx) :: e in key && key[s[0]] <= key[e]
  {
    if n > 0 {
      assert KnowsPlace(s, idx, 0);
      forall e | e in Members(idx)
        ensures key[s[0]] <= key[e]
      {
        assert InPlace(s, idx, n, n, e);
        TopIsLeast(s, key, n, idx[e]);
      }
    } else {
      forall e | e in idx
        ensures idx[e] == -1
      {
        assert InPlace(s, idx, n, n, e);
      }
    }
  }

  // ---------- the heap in place ----------

  class Heap {
    var p: array<Id>
    var n: nat
    var idx: map<Id, int> // min_heap_idx of every event
    var key: map<Id, int> // ev_timeout of every event

    ghost predicate Valid()
      reads this, p
    {
      Whole(p[..], idx, key, n)
    }

    /** min_heap_ctor, and min_heap_elem_init for every event. */
    constructor (deadlines: map<Id, int>)
      ensures Valid() && Members(idx) == {} && key == deadlines && fresh(p)
    {
      p := new Id[0];
      n := 0;
      key := deadlines;
      idx := map e | e in deadlines :: -1;
    }

    /** min_heap_top. */
    method Top() returns (r: Maybe<Id>)
      requires Valid()
      ensures r.None? <==> Members(idx) == {}
      ensures r.Some? ==> r.value in Members(idx) && r.value in key && forall e | e in Members(idx) :: e in key && key[r.value] <= key[e]
    {
      hide Whole, Members;
      TopLeast(p[..], idx, key, n);
      Length(p[..], idx, key, n);
      r := if n > 0 then Some(p[0]) else None;
    }

    /** min_heap_reserve: room for `size` events. */
    method Reserve(size: nat)
      requires n <= p.Length
      modifies `p
      ensures p.Length >= size && n <= p.Length && p[..n] == old(p[..n]) && (p == old(p) || fresh(p))
    {
      if p.Length < size {
        var a := if p.Length == 0 then 8 else p.Length * 2;
        if a < size {
          a := size;
        }
        var q := new Id[a];
        var i: nat := 0;
        while i < n
          invariant i <= n && q[..i] == p[..i]
          modifies q
        {
          q[i] := p[i];
          i := i + 1;
        }
        p := q;
      }
    }

    /** min_heap_shift_up_. */
    method ShiftUp(holeIndex: nat, e: Id, ghost out: set<Id>)
      requires holeIndex < n <= p.Length && e in key && e !in out && idx.Keys == key.Keys
      requires Indexed(p[..], idx, key, n, holeIndex, out + {e}) && Ordered(p[..], key, n, holeIndex)
      requires AboveChildren(p[..], key, n, holeIndex, e)
      modifies p, `idx
      ensures Indexed(p[..], idx, key, n, n, out) && Ordered(p[..], key, n, n)
      ensures SameMembers(old(idx), idx, e) && e in idx && idx[e] >= 0
    {
      hide Indexed, Ordered, AboveChildren, BelowAbove, SameMembers;
      var hole: nat := holeIndex;
      Start(idx, e);
      AboveKnown(p[..], idx, key, n, hole, out + {e});
      while hole != 0 && key[p[Parent(hole)]] > key[e]
        invariant hole < n && Indexed(p[..], idx, key, n, hole, out + {e}) && Ordered(p[..], key, n, hole)
        invariant AboveChildren(p[..], key, n, hole, e) && SameMembers(old(idx), idx, e)
        invariant (hole > 0 ==> p[Parent(hole)] in key) && idx.Keys == key.Keys
        decreases hole
      {
        var parent := Parent(hole);
        UpStep(p[..], idx, key, n, hole, e, out + {e});
        MemberMoves(old(idx), p[..], idx, key, n, hole, out + {e}, parent, e);
        p[hole] := p[parent];
        idx := idx[p[hole] := hole];
        hole := parent;
        AboveKnown(p[..], idx, key, n, hole, out + {e});
      }
      Fits(p[..], key, hole, e);
      Filled(p[..], idx, key, n, hole, e, out);
      MemberPlaced(old(idx), idx, e, hole);
      p[hole] := e;
      idx := idx[e := hole];
    }

    /** min_heap_shift_down_ with its hole in the heap. */
    method ShiftDown(holeIndex: nat, e: Id, ghost out: set<Id>)
      requires holeIndex < n <= p.Length && e in key && e !in out && idx.Keys == key.Keys
      requires Indexed(p[..], idx, key, n, holeIndex, out + {e}) && Ordered(p[..], key, n, holeIndex)
      requires BelowAbove(p[..], key, holeIndex, e)
      modifies p, `idx
      ensures Indexed(p[..], idx, key, n, n, out) && Ordered(p[..], key, n, n)
      ensures SameMembers(old(idx), idx, e) && e in idx && idx[e] >= 0
    {
      hide Indexed, Ordered, AboveChildren, BelowAbove, SameMembers;
      var hole: nat := holeIndex;
      var minChild := 2 * (hole + 1);
      Start(idx, e);
      ghost var fits := false;
      while minChild <= n
        invariant hole < n && minChild == 2 * (hole + 1)
        invariant Indexed(p[..], idx, key, n, hole, out + {e}) && Ordered(p[..], key, n, hole)
        invariant BelowAbove(p[..], key, hole, e) && SameMembers(old(idx), idx, e)
        invariant !fits && idx.Keys == key.Keys
        decreases n - hole
      {
        ChildrenKnown(p[..], idx, key, n, hole, out + {e});
        if minChild == n || key[p[minChild]] > key[p[minChild - 1]] {
          minChild := minChild - 1;
        }
        if !(key[e] > key[p[minChild]]) {
          AboveAll(p[..], key, n, hole, minChild, e);
          fits := true;
          break;
        }
        LesserChild(p[..], idx, key, n, hole, minChild, out + {e});
        DownStep(p[..], idx, key, n, hole, minChild, e, out + {e});
        MemberMoves(old(idx), p[..], idx, key, n, hole, out + {e}, minChild, e);
        p[hole] := p[minChild];
        idx := idx[p[hole] := hole];
        hole := minChild;
        minChild := 2 * (hole + 1);
      }
      if !fits {
        NoChildren(p[..], key, n, hole, e);
      }
      Filled(p[..], idx, key, n, hole, e, out);
      MemberPlaced(old(idx), idx, e, hole);
      p[hole] := e;
      idx := idx[e := hole];
    }

    /** min_heap_push. */
    method Push(e: Id)
      requires Valid() && e in key && e !in Members(idx)
      modifies this, p
      ensures Valid() && Members(idx) == old(Members(idx)) + {e} && key == old(key) && (p == old(p) || fresh(p))
    {
      hide Whole, Indexed, Ordered, AboveChildren, SameMembers;
      Length(p[..], idx, key, n);
      IndexKeys(p[..], idx, key, n, e);
      ghost var before := p[..];
      Reserve(n + 1);
      HoleAtEnd(before, p[..], idx, key, n, e);
      ghost var was := idx;
      n := n + 1;
      assert {} + {e} == {e};
      ShiftUp(n - 1, e, {});
      WholeAgain(p[..], idx, key, n);
      MemberAdded(was, idx, e);
    }

    /** The event is taken out of the heap, wherever it is, and the last event fills its place. */
    method TakeOut(e: Id)
      requires Valid() && e in Members(idx)
      modifies this`n, this`idx, p
      ensures Valid() && Members(idx) == old(Members(idx)) - {e}
    {
      hide Whole, Indexed, Ordered, AboveChildren, BelowAbove, SameMembers, Members;
      MemberKnown(p[..], idx, key, n, e);
      ghost var was := idx;
      var i: nat := idx[e];
      var last := p[n - 1];
      if i == n - 1 {
        // the source lets the last event fill its own place, which lies behind the end by then
        LastOff(p[..], idx, key, n, e);
        MemberGone(was, idx, e);
        n := n - 1;
        idx := idx[e := -1];
        return;
      }
      HoleInside(p[..], idx, key, n, e);
      LastKnown(p[..], idx, key, n);
      n := n - 1;
      if i > 0 && key[p[Parent(i)]] > key[last] {
        NotBelow(p[..], key, i, last);
        ShiftUp(i, last, {e});
      } else {
        Fits(p[..], key, i, last);
        ShiftDown(i, last, {e});
      }
      MembersMoved(was, idx, e, last);
      Forgotten(p[..], idx, key, n, e);
      idx := idx[e := -1];
    }

    /** min_heap_pop. */
    method Pop() returns (r: Maybe<Id>)
      requires Valid()
      modifies this`n, this`idx, p
      ensures Valid()
      ensures r.None? <==> old(Members(idx)) == {}
      ensures r.None? ==> Members(idx) == old(Members(idx))
      ensures r.Some? ==> r.value in old(Members(idx)) && Members(idx) == old(Members(idx)) - {r.value}
      ensures r.Some? ==> r.value in key && forall e | e in old(Members(idx)) :: e in key && key[r.value] <= key[e]
    {
      hide Whole, Members;
      r := Top();
      if r.Some? {
        TakeOut(r.value);
      }
    }

    /** min_heap_erase: an event that is not in the heap is refused. */
    method Erase(e: Id) returns (ok: bool)
      requires Valid() && e in idx
      modifies this`n, this`idx, p
      ensures Valid() && ok == (e in old(Members(idx))) && Members(idx) == old(Members(idx)) - {e}
    {
      hide Whole;
      if idx[e] == -1 {
        return false;
      }
      TakeOut(e);
      return true;
    }
  }

  lemma {:induction false} Length(s: seq<Id>, idx: map<Id, int>, key: map<Id, int>, n: nat)
    requires Whole(s, idx, key, n)
    ensures n <= |s|
  {
  }

  lemma {:induction false} Start(idx: map<Id, int>, e: Id)
    ensures SameMembers(idx, idx, e)
  {
  }

  lemma {:induction false} AboveKnown(s: seq<Id>, idx: map<Id, int>, key: map<Id, int>, n: nat, hole: nat, out: set<Id>)
    requires hole < n && Indexed(s, idx, key, n, hole, out)
    ensures hole > 0 ==> s[Parent(hole)] in key
  {
    if hole > 0 {
      assert KnowsPlace(s, idx, Parent(hole));
    }
  }

  lemma {:induction false} MemberMoves(before: map<Id, int>, s: seq<Id>, idx: map<Id, int>, key: map<Id, int>, n: nat,
                                       hole: nat, out: set<Id>, c: nat, e: Id)
    requires Indexed(s, idx, key, n, hole, out) && c < n && c != hole && SameMembers(before, idx, e)
    ensures s[c] in idx && SameMembers(before, idx[s[c] := hole], e)
  {
    assert KnowsPlace(s, idx, c);
  }

  lemma {:induction false} MemberPlaced(before: map<Id, int>, idx: map<Id, int>, e: Id, hole: nat)
    requires SameMembers(before, idx, e) && e in idx
    ensures SameMembers(before, idx[e := hole], e)
  {
  }

  lemma {:induction false} Fits(s: seq<Id>, key: map<Id, int>, hole: nat, e: Id)
    requires hole < |s| && e in key && (hole > 0 ==> s[Parent(hole)] in key && !(key[s[Parent(hole)]] > key[e]))
    ensures BelowAbove(s, key, hole, e)
  {
  }

  lemma {:induction false} ChildrenKnown(s: seq<Id>, idx: map<Id, int>, key: map<Id, int>, n: nat, hole: nat,
      out: set<Id>)
    requires hole < n && Indexed(s, idx, key, n, hole, out)
    ensures 2 * hole + 1 < n ==> s[2 * hole + 1] in key
    ensures 2 * hole + 2 < n ==> s[2 * hole + 2] in key
  {
    if 2 * hole + 1 < n {
      assert KnowsPlace(s, idx, 2 * hole + 1);
    }
    if 2 * hole + 2 < n {
      assert KnowsPlace(s, idx, 2 * hole + 2);
    }
  }

  /** `c` is the child that the comparison has chosen. */
  ghost predicate Lesser(s: seq<Id>, key: map<Id, int>, n: nat, hole: nat, c: nat)
    requires n <= |s|
  {
    && c < n && (c == 2 * hole + 1 || c == 2 * hole + 2) && s[c] in key
    && (2 * hole + 1 < n && s[2 * hole + 1] in key ==> key[s[c]] <= key[s[2 * hole + 1]])
    && (2 * hole + 2 < n && s[2 * hole + 2] in key ==> key[s[c]] <= key[s[2 * hole + 2]])
  }

  lemma {:induction false} AboveAll(s: seq<Id>, key: map<Id, int>, n: nat, hole: nat, c: nat, e: Id)
    requires n <= |s| && Lesser(s, key, n, hole, c) && e in key && key[e] <= key[s[c]]
    ensures AboveChildren(s, key, n, hole, e)
  {
    forall k | 0 < k < n && k != hole && s[k] in key && Parent(k) == hole
      ensures key[e] <= key[s[k]]
    {
      Children(hole, k);
    }
  }

  lemma {:induction false} LesserChild(s: seq<Id>, idx: map<Id, int>, key: map<Id, int>, n: nat, hole: nat, c: nat,
      out: set<Id>)
    requires Indexed(s, idx, key, n, hole, out) && hole < n && Lesser(s, key, n, hole, c)
    ensures Parent(c) == hole && forall k | 0 < k < n && Parent(k) == hole :: s[k] in key && key[s[c]] <= key[s[k]]
  {
    ChildrenKnown(s, idx, key, n, hole, out);
    forall k | 0 < k < n && Parent(k) == hole
      ensures s[k] in key && key[s[c]] <= key[s[k]]
    {
      Children(hole, k);
    }
  }

  lemma {:induction false} NoChildren(s: seq<Id>, key: map<Id, int>, n: nat, hole: nat, e: Id)
    requires n <= |s| && e in key && 2 * (hole + 1) > n
    ensures AboveChildren(s, key, n, hole, e)
  {
    forall k: nat | 0 < k < n
      ensures Parent(k) != hole
    {
      if Parent(k) == hole {
        Children(hole, k);
      }
    }
  }

  lemma {:induction false} IndexKeys(s: seq<Id>, idx: map<Id, int>, key: map<Id, int>, n: nat, e: Id)
    requires Whole(s, idx, key, n)
    ensures idx.Keys == key.Keys && (e in key && e !in Members(idx) ==> e in idx && idx[e] == -1)
  {
  }

  lemma {:induction false} WholeAgain(s: seq<Id>, idx: map<Id, int>, key: map<Id, int>, n: nat)
    requires Indexed(s, idx, key, n, n, {}) && Ordered(s, key, n, n)
    ensures Whole(s, idx, key, n)
  {
  }

  lemma {:induction false} MemberAdded(before: map<Id, int>, after: map<Id, int>, e: Id)
    requires SameMembers(before, after, e) && e in after && after[e] >= 0
    ensures Members(after) == Members(before) + {e}
  {
  }

  lemma {:induction false} MemberGone(before: map<Id, int>, after: map<Id, int>, e: Id)
    requires after == before && e in before
    ensures Members(after[e := -1]) == Members(before) - {e}
  {
  }

  lemma {:induction false} MemberKnown(s: seq<Id>, idx: map<Id, int>, key: map<Id, int>, n: nat, e: Id)
    requires Whole(s, idx, key, n) && e in Members(idx)
    ensures idx.Keys == key.Keys && e in idx && 0 <= idx[e] < n <= |s|
  {
    assert InPlace(s, idx, n, n, e);
  }

  lemma {:induction false} LastKnown(s: seq<Id>, idx: map<Id, int>, key: map<Id, int>, n: nat)
    requires Whole(s, idx, key, n) && n > 0
    ensures s[n - 1] in idx && idx[s[n - 1]] == n - 1
  {
    assert KnowsPlace(s, idx, n - 1);
  }

  lemma {:induction false} NotBelow(s: seq<Id>, key: map<Id, int>, hole: nat, e: Id)
    requires 0 < hole < |s| && e in key && s[Parent(hole)] in key && key[s[Parent(hole)]] > key[e]
    ensures !BelowAbove(s, key, hole, e)
  {
  }

  lemma {:induction false} MembersMoved(before: map<Id, int>, after: map<Id, int>, e: Id, last: Id)
    requires SameMembers(before, after, last) && last != e && e in before
    requires last in before && before[last] != -1 && last in after && after[last] >= 0
    ensures e in after && Members(after[e := -1]) == Members(before) - {e}
  {
  }

  /** Taking everything out gives the events in the order of their deadlines, each once. */
  method PopAll(h: Heap) returns (out: seq<Id>)
    requires h.Valid()
    modifies h`n, h`idx, h.p
    ensures h.Valid() && Members(h.idx) == {} && h.key == old(h.key)
    ensures (set e | e in out) == old(Members(h.idx)) && |out| == |old(Members(h.idx))|
    ensures forall i, j | 0 <= i < j < |out| :: out[i] in h.key && out[j] in h.key && h.key[out[i]] <= h.key[out[j]]
  {
    hide Whole, Members;
    out := [];
    ghost var all := Members(h.idx);
    while true
      invariant h.Valid() && Members(h.idx) <= all && (set e | e in out) == all - Members(h.idx)
      invariant |out| + |Members(h.idx)| == |all|
      invariant forall i | 0 <= i < |out| :: out[i] in h.key && forall e | e in Members(h.idx) :: e in h.key ==> h.key[out[i]] <= h.key[e]
      invariant forall i, j | 0 <= i < j < |out| :: out[i] in h.key && out[j] in h.key && h.key[out[i]] <= h.key[out[j]]
      decreases Members(h.idx)
    {
      var r := h.Pop();
      if r.None? {
        break;
      }
      out := out + [r.value];
    }
  }
}
