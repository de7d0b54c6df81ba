/**
 The data structure of buffer.c: an evbuffer is a singly linked list of byte
 chains.  `last_with_datap` is a pointer to a link; here it is the chain that
 owns the link, null standing for the link `&buf->first`.
*/
module Chains {
  import opened Bytes

  const MIN_BUFFER_SIZE := 1024
  const CHAIN_SIZE := 48
  const CHAIN_MAX := 0x7fff_ffff_ffff_ffff
  const EV_SIZE_MAX := 0xffff_ffff_ffff_ffff

  /** One chunk of memory: `off` bytes of data start at `misalign`. */
  class Chain {
    var next: Chain?
    const buffer: array<byte>
    var misalign: nat
    var off: nat

    /** evbuffer_chain_new: room for `size` bytes, the allocation rounded up to a power of two. */
    constructor (size: nat)
      ensures fresh(buffer) && next == null && Ok() && misalign == 0 && off == 0
      ensures size <= buffer.Length <= 2 * (size + MIN_BUFFER_SIZE + CHAIN_SIZE)
    {
      var toAlloc := size + CHAIN_SIZE;
      if size + CHAIN_SIZE < CHAIN_MAX / 2 {
        toAlloc := MIN_BUFFER_SIZE;
        while toAlloc < size + CHAIN_SIZE
          invariant MIN_BUFFER_SIZE <= toAlloc <= 2 * (size + MIN_BUFFER_SIZE + CHAIN_SIZE)
        {
          toAlloc := toAlloc * 2;
        }
      }
      next, misalign, off := null, 0, 0;
      buffer := new byte[toAlloc - CHAIN_SIZE];
    }

    ghost predicate Ok()
      reads this`misalign, this`off
    {
      misalign + off <= buffer.Length && 0 < buffer.Length
    }

    function Data(): (d: seq<byte>)
      requires Ok()
      reads this`misalign, this`off, buffer
      ensures |d| == off
    {
      buffer[misalign..misalign + off]
    }

    /** CHAIN_SPACE_LEN of a mutable chain. */
    function SpaceLen(): nat
      requires Ok()
      reads this`misalign, this`off
    {
      buffer.Length - (misalign + off)
    }

    /** memcpy of `d` into the chain's memory at `at`. */
    method Write(at: nat, d: seq<byte>)
      requires at + |d| <= buffer.Length
      modifies buffer
      ensures buffer[..] == old(buffer[..at]) + d + old(buffer[at + |d|..])
    {
      forall i | 0 <= i < |d| {
        buffer[at + i] := d[i];
      }
    }

    /** Copy `d` behind the data. */
    method Append(d: seq<byte>)
      requires Ok() && |d| <= SpaceLen()
      modifies this`off, buffer
      ensures Ok() && Data() == old(Data()) + d
    {
      Write(misalign + off, d);
      off := off + |d|;
      assert Data() == buffer[..][misalign..misalign + off];
    }

    /** Copy `d` in front of the data. */
    method Prepend(d: seq<byte>)
      requires Ok() && |d| <= misalign
      modifies this`off, this`misalign, buffer
      ensures Ok() && Data() == d + old(Data()) && misalign == old(misalign) - |d|
    {
      Write(misalign - |d|, d);
      off, misalign := off + |d|, misalign - |d|;
      assert Data() == buffer[..][misalign..misalign + off];
    }

    /** evbuffer_chain_align: move the data to the start of the memory. */
    method Align()
      requires Ok()
      modifies this`misalign, buffer
      ensures Ok() && misalign == 0 && Data() == old(Data())
    {
      Write(0, buffer[misalign..misalign + off]);
      misalign := 0;
      assert Data() == buffer[..][..off];
    }

    /** Take `n` bytes off the front. */
    method DropFront(n: nat)
      requires Ok() && n <= off
      modifies this`misalign, this`off
      ensures Ok() && Data() == old(Data())[n..]
    {
      misalign, off := misalign + n, off - n;
    }
  }

  /** No chain and no memory block occurs twice. */
  ghost predicate Distinct(s: seq<Chain>)
  {
    forall i, j | 0 <= i < j < |s| :: s[i] != s[j] && s[i].buffer != s[j].buffer
  }

  ghost predicate Owned(s: seq<Chain>, repr: set<object>)
  {
    forall i | 0 <= i < |s| :: s[i] in repr && s[i].buffer in repr
  }

  /** What a buffer's pointers stand for. */
  datatype Layout = Layout(
    spine: seq<Chain>,       // the chains, in list order
    segs: seq<seq<byte>>,    // what each chain holds
    lwd: nat,                // index of the chain *last_with_datap
    repr: set<object>)       // the chains and their memory blocks
  {
    /** The index at which evbuffer_chain_insert puts a new chain. */
    ghost function InsertIndex(): (v: nat)
    {
      if lwd < |segs| && segs[lwd] != [] then lwd + 1 else lwd
    }

    /** The chains from `v` on replaced by chain `c`, which holds `d`. */
    ghost function Replace(v: nat, c: Chain, d: seq<byte>, newLwd: nat): Layout
      requires v <= |spine| && v <= |segs|
    {
      Layout(spine[..v] + [c], segs[..v] + [d], newLwd, repr + {c, c.buffer})
    }

    /** Chain `k` now holds `d`. */
    ghost function Set(k: nat, d: seq<byte>): Layout
      requires k < |segs|
    {
      this.(segs := segs[k := d])
    }

    ghost function Drop(k: nat): Layout
      requires k <= |spine| && k <= |segs|
    {
      Layout(spine[k..], segs[k..], if k <= lwd then lwd - k else 0, repr)
    }

    /** The owner of the link that leads to chain `k`; null is the buffer itself. */
    ghost function Owner(k: nat): Chain?
      requires k <= |spine|
    {
      if k == 0 then null else spine[k - 1]
    }

    /** Chain `k`, or null behind the last one. */
    ghost function At(k: nat): Chain?
    {
      if k < |spine| then spine[k] else null
    }

    /** Every chain behind the last chain with data is empty. */
    ghost predicate TailEmpty()
    {
      && (lwd == 0 || (lwd < |segs| && segs[lwd] != []))
      && forall i | lwd < i < |segs| :: segs[i] == []
    }

    /**
     What evbuffer_chain_insert relies on: from the last chain with data on there
     is a run of chains with data up to `v`, and all chains from `v` on are empty.
    */
    ghost predicate VictimsFrom(v: nat)
    {
      && lwd <= v <= |segs|
      && (forall i | lwd <= i < v :: segs[i] != [])
      && forall i | v <= i < |segs| :: segs[i] == []
    }

    /** No reservation outstanding: every chain holds data, or there is at most one chain. */
    ghost predicate Packed()
    {
      && (|segs| <= 1 || forall i | 0 <= i < |segs| :: segs[i] != [])
      && lwd == if segs == [] then 0 else |segs| - 1
    }
  }

  /** The chains are linked in this order, and the list ends. */
  ghost predicate Linked(s: seq<Chain>)
    reads s`next
  {
    && (forall i, j | 0 <= i < j < |s| && j == i + 1 :: s[i].next == s[j])
    && (s != [] ==> s[|s| - 1].next == null)
  }

  /** The chains are linked in list order, and chain `i` holds `segs[i]`. */
  ghost predicate Real(m: Layout)
    reads m.repr
  {
    && |m.segs| == |m.spine|
    && Owned(m.spine, m.repr) && Distinct(m.spine) && Linked(m.spine)
    && (forall i | 0 <= i < |m.spine| :: m.spine[i].Ok() && m.segs[i] == m.spine[i].Data())
  }

  lemma RealLen(m: Layout)
    requires Real(m)
    ensures |m.segs| == |m.spine|
    ensures forall c | c in m.spine :: c in m.repr && c.buffer in m.repr && c.Ok()
  {
  }

  lemma RealLwd(m: Layout, newLwd: nat)
    requires Real(m)
    ensures Real(m.(lwd := newLwd))
  {
  }

  lemma RealAt(m: Layout, k: nat)
    requires Real(m) && k < |m.spine|
    ensures |m.segs| == |m.spine| && m.spine[k] in m.repr && m.spine[k].buffer in m.repr
    ensures m.spine[k].next == m.At(k + 1) && m.spine[k].Ok() && m.segs[k] == m.spine[k].Data()
  {
    assert k + 1 < |m.spine| ==> m.spine[k].next == m.spine[k + 1];
  }

  /** Only chain `k` (its window or its memory) has changed. */
  twostate lemma ChainChanged(m: Layout, new k: nat, new d: seq<byte>)
    requires old(Real(m)) && k < |m.spine| && m.spine[k].Ok() && m.spine[k].next == old(m.spine[k].next)
    requires forall o: object | o in m.repr && o != m.spine[k] && o != m.spine[k].buffer :: unchanged(o)
    requires m.spine[k].Data() == d && k < |m.segs|
    ensures Real(m.Set(k, d))
  {
    forall i | 0 <= i < |m.spine|
      ensures m.spine[i].next == old(m.spine[i].next)
      ensures i != k ==> m.spine[i].Ok() && m.segs[i] == m.spine[i].Data()
    {
      assert i != k ==> unchanged(m.spine[i]) && unchanged(m.spine[i].buffer);
    }
  }

  lemma ReplaceReal(m: Layout, v: nat, c: Chain, newLwd: nat)
    requires |m.segs| == |m.spine| && Owned(m.spine, m.repr) && Distinct(m.spine) && v <= |m.spine|
    requires c !in m.repr && c.buffer !in m.repr && c.Ok() && c.next == null
    requires Linked(m.spine[..v] + [c])
    requires forall i | 0 <= i < v :: m.spine[i].Ok() && m.segs[i] == m.spine[i].Data()
    ensures Real(m.Replace(v, c, c.Data(), newLwd))
  {
    var s := m.spine[..v] + [c];
    assert Distinct(s);
    assert Owned(s, m.repr + {c, c.buffer});
  }

  /** The link to chain `v` now leads to the new last chain `c`. */
  twostate lemma TailReplaced(m: Layout, new v: nat, new c: Chain, new d: seq<byte>, new newLwd: nat)
    requires old(Real(m)) && v <= |m.spine| && c !in m.repr && c.buffer !in m.repr && c.Ok() && c.next == null
    requires forall o: object | o in m.repr && o != m.Owner(v) :: unchanged(o)
    requires v > 0 ==> var o := m.spine[v - 1]; o.misalign == old(o.misalign) && o.off == old(o.off) && o.next == c
    requires c.Data() == d
    ensures Real(m.Replace(v, c, d, newLwd))
  {
    var s := m.spine[..v] + [c];
    forall i | 0 <= i < v
      ensures m.spine[i].Ok() && m.segs[i] == m.spine[i].Data()
      ensures i + 1 < v ==> m.spine[i].next == old(m.spine[i].next)
    {
      assert unchanged(m.spine[i].buffer);
      assert i + 1 < v ==> unchanged(m.spine[i]);
    }
    assert Linked(s);
    ReplaceReal(m, v, c, newLwd);
  }

  /** A suffix of the list is a list. */
  lemma RealDrop(m: Layout, k: nat)
    requires Real(m) && k <= |m.spine|
    ensures |m.segs| == |m.spine| && Real(m.Drop(k))
  {
    var s := m.spine[k..];
    assert forall i | 0 <= i < |s| :: s[i] == m.spine[k + i];
    assert Linked(s);
  }

  /** Dropping chains in front of the last one with data keeps it last. */
  lemma DropKeepsOrder(m: Layout, k: nat, d: seq<byte>)
    requires m.TailEmpty() && |m.segs| == |m.spine| && k <= m.lwd < |m.segs| && d != []
    ensures var r := m.Drop(k).Set(0, d); r.TailEmpty() && (m.Packed() ==> r.Packed())
    ensures var r := m.Drop(k).Set(0, d);
            && r.lwd < |r.spine| && r.At(0) == m.At(k) && r.Owner(|r.spine|) == m.Owner(|m.spine|)
            && r.Owner(r.lwd) == (if k == m.lwd then null else m.Owner(m.lwd))
            && r.repr == m.repr && r.segs == m.segs[k..][0 := d]
  {
  }

  /** The list behind its first chain, as a list that does not own that chain. */
  ghost function Rest(m: Layout): Layout
    requires m.spine != [] && m.segs != []
  {
    m.Drop(1).(repr := m.repr - {m.spine[0], m.spine[0].buffer})
  }

  lemma RealRest(m: Layout)
    requires Real(m) && m.spine != []
    ensures |m.segs| == |m.spine| && Real(Rest(m))
  {
    RealDrop(m, 1);
    assert forall i | 0 <= i < |m.spine| - 1 :: m.Drop(1).spine[i] == m.spine[i + 1];
  }

  lemma PackedTailEmpty(m: Layout)
    requires m.Packed()
    ensures m.TailEmpty()
  {
  }

  lemma {:induction false} TailVictims(m: Layout)
    requires m.TailEmpty() && (m.lwd == 0 || m.lwd < |m.segs|)
    ensures m.VictimsFrom(m.InsertIndex())
  {
  }

  lemma {:induction false} PackedInserts(m: Layout, c: Chain, d: seq<byte>)
    requires |m.segs| == |m.spine| && d != []
    ensures m.Packed() && m.segs != [] && m.segs[|m.segs| - 1] != [] ==>
              m.Replace(|m.segs|, c, d, |m.segs|).Packed()
    ensures m.Packed() && m.InsertIndex() < |m.segs| ==> m.Replace(m.InsertIndex(), c, d, m.lwd).Packed()
  {
  }

  /** The first chain of all, still empty. */
  lemma {:induction false} NothingYet(m: Layout, c: Chain)
    requires m.segs == [] && m.spine == [] && m.TailEmpty()
    ensures m.lwd == 0 && m.VictimsFrom(0)
    ensures var r := m.Replace(0, c, [], 0); r.Packed() && r.TailEmpty() && r.InsertIndex() == 0
  {
  }

  /** Data in front of the first chain's, and data in a chain in front of it. */
  lemma {:induction false} FrontGrows(m: Layout, d: seq<byte>)
    requires m.TailEmpty() && m.segs != []
    ensures m.Set(0, d + m.segs[0]).TailEmpty() && (m.Packed() ==> m.Set(0, d + m.segs[0]).Packed())
  {
  }

  lemma {:induction false} NewFront(m: Layout, r: Layout, d: seq<byte>)
    requires m.TailEmpty() && m.segs != [] && m.segs[0] != [] && d != []
    requires r.segs == [d] + m.segs && r.lwd == m.lwd + 1
    ensures r.TailEmpty() && (m.Packed() ==> r.Packed())
  {
    assert forall i | 0 < i < |r.segs| :: r.segs[i] == m.segs[i - 1];
  }

  /** A new chain behind a list in which every chain from `lwd` on holds data. */
  lemma {:induction false} AppendedTail(m: Layout, c: Chain, d: seq<byte>)
    requires |m.segs| == |m.spine| && m.VictimsFrom(|m.segs|) && d != []
    ensures m.Replace(|m.segs|, c, d, |m.segs|).TailEmpty()
  {
  }

  /**
   With the last chain filled up, the assertion in evbuffer_chain_insert holds exactly if no other
   empty chain comes before it.
  */
  lemma {:induction false} WhenAssertionHolds(m: Layout, d: seq<byte>)
    requires m.TailEmpty() && |m.segs| == |m.spine| && m.segs != [] && m.lwd < |m.segs| && d != []
    ensures var k := |m.segs| - 1;
            (exists v: nat :: m.Set(k, m.segs[k] + d).VictimsFrom(v)) <==> m.InsertIndex() >= k
  {
    var k := |m.segs| - 1;
    var filled := m.Set(k, m.segs[k] + d);
    assert filled.segs[k] != [] && |filled.segs| == k + 1;
    if m.InsertIndex() >= k {
      assert filled.VictimsFrom(k + 1);
    } else {
      var at := m.InsertIndex();
      assert filled.lwd <= at < k && filled.segs[at] == [];
      forall v: nat
        ensures !filled.VictimsFrom(v)
      {
        assert v <= at || !filled.VictimsFrom(v);
      }
    }
  }

  /** Growing the last chain past empty ones hides the new bytes from last_with_datap. */
  lemma {:induction false} GrownTail(m: Layout, d: seq<byte>)
    requires m.TailEmpty() && |m.segs| == |m.spine| && m.segs != [] && m.lwd < |m.segs|
    ensures var k := |m.segs| - 1; m.Set(k, m.segs[k] + d).TailEmpty() <==> d == [] || k == m.lwd
    ensures var k := |m.segs| - 1; m.Packed() ==> m.Set(k, m.segs[k] + d).Packed()
    ensures var k := |m.segs| - 1; d != [] && m.InsertIndex() >= k ==> m.Set(k, m.segs[k] + d).VictimsFrom(|m.segs|)
  {
    var k := |m.segs| - 1;
    var r := m.Set(k, m.segs[k] + d);
    assert r.segs[k] == m.segs[k] + d;
    if d == [] {
      assert m.segs[k] + d == m.segs[k];
      assert r.segs == m.segs;
    }
  }

  /** A chain with data in place of empty ones is the last with data only if it takes the place of the first chain. */
  lemma {:induction false} ReplacedTail(m: Layout, c: Chain, d: seq<byte>)
    requires m.TailEmpty() && |m.segs| == |m.spine| && m.segs != [] && m.lwd < |m.segs| && d != []
    ensures var v := m.InsertIndex();
            && v <= |m.segs|
            && (m.Replace(v, c, d, if v == |m.segs| then v else m.lwd).TailEmpty() <==> v == |m.segs| || v == m.lwd)
  {
    var v := m.InsertIndex();
    var r := m.Replace(v, c, d, if v == |m.segs| then v else m.lwd);
    assert r.segs[v] == d;
  }

  /** A chain linked in front of the list. */
  lemma RealCons(m: Layout, c: Chain, newLwd: nat)
    requires Real(m) && c !in m.repr && c.buffer !in m.repr && c.Ok() && c.next == m.At(0)
    ensures Real(Layout([c] + m.spine, [c.Data()] + m.segs, newLwd, m.repr + {c, c.buffer}))
  {
    var s := [c] + m.spine;
    assert forall i | 0 < i < |s| :: s[i] == m.spine[i - 1];
    assert Linked(s);
    assert Distinct(s);
    assert Owned(s, m.repr + {c, c.buffer});
  }

  /** One list behind the other. */
  ghost function Join(a: Layout, b: Layout, newLwd: nat): Layout
  {
    Layout(a.spine + b.spine, a.segs + b.segs, newLwd, a.repr + b.repr)
  }

  /** The last chain of `a` now links to the first chain of `b`. */
  twostate lemma ListsJoined(a: Layout, new b: Layout, new newLwd: nat)
    requires old(Real(a)) && Real(b) && a.spine != [] && a.repr !! b.repr
    requires forall o: object | o in a.repr && o != a.spine[|a.spine| - 1] :: unchanged(o)
    requires var o := a.spine[|a.spine| - 1]; o.misalign == old(o.misalign) && o.off == old(o.off) && o.next == b.At(0)
    ensures Real(Join(a, b, newLwd))
  {
    forall i | 0 <= i < |a.spine|
      ensures a.spine[i].Ok() && a.segs[i] == a.spine[i].Data()
    {
      assert unchanged(a.spine[i].buffer);
      assert i + 1 < |a.spine| ==> unchanged(a.spine[i]);
    }
    forall i, j | 0 <= i < j < |a.spine| && j == i + 1
      ensures a.spine[i].next == a.spine[j]
    {
      assert unchanged(a.spine[i]);
    }
    LinkedJoin(a.spine, b.spine);
    JoinReal(a, b, newLwd);
  }

  lemma {:induction false} LinkedJoin(a: seq<Chain>, b: seq<Chain>)
    requires a != [] && Linked(b) && a[|a| - 1].next == if b == [] then null else b[0]
    requires forall i, j | 0 <= i < j < |a| && j == i + 1 :: a[i].next == a[j]
    ensures Linked(a + b)
  {
    var s, n := a + b, |a|;
    assert forall i | n <= i < |s| :: s[i] == b[i - n];
  }

  lemma JoinReal(a: Layout, b: Layout, newLwd: nat)
    requires |a.segs| == |a.spine| && Owned(a.spine, a.repr) && Distinct(a.spine) && Real(b) && a.repr !! b.repr
    requires forall i | 0 <= i < |a.spine| :: a.spine[i].Ok() && a.segs[i] == a.spine[i].Data()
    requires Linked(a.spine + b.spine)
    ensures Real(Join(a, b, newLwd))
  {
    var s, n := a.spine + b.spine, |a.spine|;
    assert forall i | n <= i < |s| :: s[i] == b.spine[i - n];
    assert Owned(s, a.repr + b.repr);
    assert Distinct(s);
    assert forall i | 0 <= i < |s| :: s[i].Ok() && (a.segs + b.segs)[i] == s[i].Data();
  }

  /** The chains and memory blocks of a list. */
  ghost function Mem(s: seq<Chain>): set<object>
  {
    (set c: Chain | c in s :: c as object) + (set c: Chain | c in s :: c.buffer as object)
  }

  /** The first `k` chains as a list of their own. */
  ghost function Taken(m: Layout, k: nat): Layout
    requires k <= |m.spine| && k <= |m.segs|
  {
    Layout(m.spine[..k], m.segs[..k], 0, Mem(m.spine[..k]))
  }

  /** The other chains. */
  ghost function Left(m: Layout, k: nat): Layout
    requires k <= |m.spine| && k <= |m.segs|
  {
    m.Drop(k).(repr := m.repr - Mem(m.spine[..k]))
  }

  lemma TakenReal(m: Layout, k: nat)
    requires |m.segs| == |m.spine| && Distinct(m.spine) && k <= |m.spine| && Linked(m.spine[..k])
    requires forall i | 0 <= i < k :: m.spine[i].Ok() && m.segs[i] == m.spine[i].Data()
    ensures Real(Taken(m, k))
  {
    assert Owned(m.spine[..k], Mem(m.spine[..k]));
  }

  lemma LeftReal(m: Layout, k: nat)
    requires |m.segs| == |m.spine| && Distinct(m.spine) && Owned(m.spine, m.repr) && k <= |m.spine|
    requires Linked(m.spine[k..])
    requires forall i | k <= i < |m.spine| :: m.spine[i].Ok() && m.segs[i] == m.spine[i].Data()
    ensures Real(Left(m, k))
  {
    var s := m.spine[k..];
    assert forall i | 0 <= i < |s| :: s[i] == m.spine[k + i];
    assert Owned(s, Left(m, k).repr);
  }

  lemma BothLinked(s: seq<Chain>, k: nat)
    requires 0 < k <= |s| && s[k - 1].next == null && s[|s| - 1].next == null
    requires forall i, j | 0 <= i < j < |s| && i != k - 1 && j == i + 1 :: s[i].next == s[j]
    ensures Linked(s[..k]) && Linked(s[k..])
  {
    var t := s[k..];
    forall i, j | 0 <= i < j < |t| && j == i + 1
      ensures t[i].next == t[j]
    {
      assert s[k + i].next == s[k + j];
    }
    assert t != [] ==> t[|t| - 1] == s[|s| - 1];
  }

  /** The list is cut behind chain `k - 1`. */
  twostate lemma ListCut(m: Layout, new k: nat)
    requires old(Real(m)) && 0 < k <= |m.spine|
    requires forall o: object | o in m.repr && o != m.spine[k - 1] :: unchanged(o)
    requires var o := m.spine[k - 1]; o.misalign == old(o.misalign) && o.off == old(o.off) && o.next == null
    ensures |m.segs| == |m.spine| && Real(Taken(m, k)) && Real(Left(m, k))
  {
    forall i | 0 <= i < |m.spine|
      ensures m.spine[i].Ok() && m.segs[i] == m.spine[i].Data()
      ensures i != k - 1 ==> m.spine[i].next == old(m.spine[i].next)
    {
      assert unchanged(m.spine[i].buffer);
      assert i != k - 1 ==> unchanged(m.spine[i]);
    }
    BothLinked(m.spine, k);
    TakenReal(m, k);
    LeftReal(m, k);
  }

  /** Where data runs out: with fewer than all bytes consumed, the chain with the next byte is not behind `lwd`. */
  lemma MoreData(m: Layout, k: nat)
    requires m.TailEmpty() && k < |m.segs| && |Flat(m.segs[..k + 1])| < |Flat(m.segs)|
    ensures k < m.lwd
  {
    FlatSplit(m.segs, k + 1);
    if m.lwd <= k {
      FlatEmpty(m.segs[k + 1..]);
    }
  }
}
