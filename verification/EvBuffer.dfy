/** struct evbuffer and the internal operations on its chain list (buffer.c). */
module EvBuffers {
  import opened Bytes
  import opened Chains

  const CHAIN_MAX_AUTO_SIZE := 4096
  const MAX_TO_REALIGN_IN_EXPAND := 2048

  class EvBuffer {
    var first: Chain?
    var last: Chain?
    var lastWithDataP: Chain?
    var totalLen: nat
    var freezeStart: bool
    var freezeEnd: bool
    ghost var m: Layout

    /** The pointers and total_len agree with the chain list, whatever last_with_datap's chain holds. */
    ghost predicate Shape()
      reads this, m.repr
    {
      && this !in m.repr
      && Real(m)
      && (m.lwd == 0 || m.lwd < |m.spine|)
      && first == m.At(0)
      && last == m.Owner(|m.spine|)
      && lastWithDataP == m.Owner(m.lwd)
      && totalLen == |Flat(m.segs)|
    }

    /** ... and it is the last chain with data, or the first chain. */
    ghost predicate Valid()
      reads this, m.repr
    {
      Shape() && m.TailEmpty()
    }

    /** ... and no reservation is outstanding. */
    ghost predicate Ready()
      reads this, m.repr
    {
      Shape() && m.Packed()
    }

    ghost function Content(): (c: seq<byte>)
      reads this
    {
      Flat(m.segs)
    }

    /** evbuffer_new */
    constructor ()
      ensures Ready() && Content() == [] && m == Layout([], [], 0, {}) && !freezeStart && !freezeEnd
    {
      first, last, lastWithDataP, totalLen := null, null, null, 0;
      freezeStart, freezeEnd := false, false;
      m := Layout([], [], 0, {});
    }

    /** *buf->last_with_datap */
    function LastWithData(): (c: Chain?)
      requires Shape()
      reads this, m.repr
      ensures c == m.At(m.lwd)
    {
      if lastWithDataP == null then first else lastWithDataP.next
    }

    /** Copy `d` into the space of the last chain; last_with_datap stays where it is. */
    method AppendLast(d: seq<byte>)
      requires Shape() && last != null && |d| <= last.SpaceLen()
      modifies this`m, this`totalLen, last`off, last.buffer
      ensures Shape() && |old(m.segs)| == |old(m.spine)|
      ensures m == old(m.Set(|m.segs| - 1, m.segs[|m.segs| - 1] + d))
      ensures Content() == old(Content()) + d
    {
      hide Real, Flat, Chain.Data;
      ghost var was, k := m, |m.spine| - 1;
      RealAt(m, k);
      FlatAppendLast(m.segs, d);
      label before:
      last.Append(d);
      m, totalLen := m.Set(k, m.segs[k] + d), totalLen + |d|;
      ChainChanged@before(was, k, was.segs[k] + d);
    }

    /** evbuffer_chain_align of the last chain. */
    method AlignLast()
      requires Shape() && last != null
      modifies last`misalign, last.buffer
      ensures Shape() && last.Ok() && last.misalign == 0
    {
      hide Real, Flat, Chain.Data;
      RealAt(m, |m.spine| - 1);
      label before:
      last.Align();
      ChainChanged@before(m, |m.spine| - 1, m.segs[|m.spine| - 1]);
      assert m.Set(|m.spine| - 1, m.segs[|m.spine| - 1]) == m;
    }

    /** The victim search of evbuffer_chain_insert: the first link from last_with_datap on whose chain is empty. */
    method FindVictim(ghost v: nat) returns (owner: Chain?, cur: Chain?)
      requires Shape() && m.VictimsFrom(v)
      ensures |m.segs| == |m.spine| && cur == m.At(v) && owner == m.Owner(v)
    {
      hide Real, Flat, Chain.Data;
      RealLen(m);
      owner, cur := lastWithDataP, LastWithData();
      ghost var k := m.lwd;
      if cur != null {
        RealAt(m, k);
      }
      while cur != null && cur.off != 0
        invariant m.lwd <= k <= v && cur == m.At(k) && owner == m.Owner(k)
        invariant k < |m.spine| ==> m.spine[k].Ok() && m.spine[k].Data() == m.segs[k]
        decreases |m.spine| - k
      {
        RealAt(m, k);
        owner, cur := cur, cur.next;
        k := k + 1;
        if k < |m.spine| {
          RealAt(m, k);
        }
      }
    }

    /** The walk of advance_last_with_data: move on while the next chain holds data. */
    method WalkWithData() returns (owner: Chain?, ghost k: nat)
      requires Shape() && LastWithData() != null
      ensures |m.segs| == |m.spine| && m.lwd <= k < |m.spine| && owner == m.Owner(k)
      ensures forall i | m.lwd < i <= k :: m.segs[i] != []
      ensures k + 1 < |m.segs| ==> m.segs[k + 1] == []
    {
      hide Flat, Real, Chain.Data;
      RealLen(m);
      var cur := LastWithData();
      owner, k := lastWithDataP, m.lwd;
      RealAt(m, k);
      while cur.next != null && cur.next.off != 0
        invariant m.lwd <= k < |m.spine| && owner == m.Owner(k) && cur == m.spine[k] && cur.next == m.At(k + 1)
        invariant forall i | m.lwd < i <= k :: m.segs[i] != []
        decreases |m.spine| - k
      {
        RealAt(m, k + 1);
        owner, cur, k := cur, cur.next, k + 1;
      }
      if k + 1 < |m.spine| {
        RealAt(m, k + 1);
      }
    }

    /** advance_last_with_data */
    method AdvanceLastWithData()
      requires Shape()
      modifies this`lastWithDataP, this`m
      ensures Shape() && m == old(m).(lwd := m.lwd) && old(m.lwd) <= m.lwd && |m.segs| == |m.spine|
      ensures forall i | old(m.lwd) < i <= m.lwd :: i < |m.segs| && m.segs[i] != []
      ensures m.lwd + 1 < |m.segs| ==> m.segs[m.lwd + 1] == []
    {
      hide Flat, Real, Chain.Data;
      RealLen(m);
      if LastWithData() == null {
        return;
      }
      ghost var was := m;
      var owner; ghost var k;
      owner, k := WalkWithData();
      lastWithDataP, m := owner, m.(lwd := k);
      RealLwd(was, k);
    }

    /** `*ch = chain; buf->last = chain`, the link being the one to chain `v`. */
    method LinkTail(owner: Chain?, chain: Chain, ghost v: nat, ghost newLwd: nat)
      requires Real(m) && v <= |m.spine| && owner == m.Owner(v) && this !in m.repr
      requires chain !in m.repr && chain.buffer !in m.repr && chain.Ok() && chain.next == null
      modifies this`first, this`last, this`m, m.spine`next
      ensures |old(m.segs)| == |old(m.spine)| && m == old(m.Replace(v, chain, chain.Data(), newLwd))
      ensures Real(m) && last == chain && first == if v == 0 then chain else old(first)
    {
      hide Real, Flat, Chain.Data;
      ghost var was, d := m, chain.Data();
      RealLen(m);
      label before:
      if owner == null {
        first := chain;
      } else {
        owner.next := chain;
      }
      last, m := chain, m.Replace(v, chain, d, newLwd);
      assert chain.Data() == d;
      TailReplaced@before(was, v, chain, d, newLwd);
    }

    /** evbuffer_chain_insert: append `chain`, replacing trailing empty chains. */
    method ChainInsert(chain: Chain, ghost v: nat)
      requires Shape() && m.VictimsFrom(v)
      requires chain !in m.repr && chain.buffer !in m.repr && chain.Ok() && chain.next == null
      modifies this`first, this`last, this`lastWithDataP, this`totalLen, this`m, m.spine`next
      ensures Shape() && v <= |old(m.spine)| == |old(m.segs)|
      ensures m.lwd == if v == |old(m.spine)| && chain.off != 0 then |old(m.spine)| else old(m.lwd)
      ensures m == old(m).Replace(v, chain, old(chain.Data()), m.lwd)
      ensures Content() == old(Content()) + old(chain.Data())
    {
      hide Real, Flat, Chain.Data;
      var owner, cur := FindVictim(v);
      RealLen(m);
      FlatReplaceTail(m.segs, v, chain.Data());
      totalLen := totalLen + chain.off;
      if cur == null && owner != null && chain.off != 0 {
        lastWithDataP := owner;
      }
      LinkTail(owner, chain, v, if v == |m.spine| && chain.off != 0 then v else m.lwd);
    }

    /** The data does not fit into the last chain, even after realigning it. */
    ghost predicate Splits(data: seq<byte>)
      requires Shape()
      reads this, m.repr
    {
      last != null && last.SpaceLen() < |data| && !ShouldRealign(last.buffer.Length, last.off, |data|)
    }

    /**
     What the assertion in evbuffer_chain_insert asks of a caller of evbuffer_add: data is never
     split over an empty chain.
    */
    ghost predicate MayAdd(data: seq<byte>)
      requires Shape()
      reads this, m.repr
    {
      Splits(data) && last.SpaceLen() > 0 ==> m.InsertIndex() >= |m.spine| - 1
    }

    /** evbuffer_add leaves last_with_datap at the last chain with data. */
    ghost predicate KeepsTrack(data: seq<byte>)
      requires Shape()
      reads this, m.repr
    {
      if last == null || data == [] then true
      else if Splits(data) then last.SpaceLen() > 0 || m.InsertIndex() == |m.spine| || m.InsertIndex() == m.lwd
      else |m.spine| == m.lwd + 1
    }

    /** The part of evbuffer_add that needs another chain. */
    method AddNewChain(data: seq<byte>)
      requires Valid() && last != null && last.SpaceLen() < |data|
      requires last.SpaceLen() > 0 ==> m.InsertIndex() >= |m.spine| - 1
      modifies this`first, this`last, this`lastWithDataP, this`totalLen, this`m, m.repr
      ensures Shape() && fresh(m.repr - old(m.repr)) && Content() == old(Content()) + data && (old(Ready()) ==> Ready())
      ensures Valid() <==> old(last.SpaceLen() > 0 || m.InsertIndex() == |m.spine| || m.InsertIndex() == m.lwd)
    {
      hide Real, Flat, Chain.Data, Layout.Packed, Layout.TailEmpty, Layout.VictimsFrom;
      RealLen(m);
      var remain := last.SpaceLen();
      var toAlloc := last.buffer.Length;
      if toAlloc <= CHAIN_MAX_AUTO_SIZE / 2 {
        toAlloc := toAlloc * 2;
      }
      if |data| > toAlloc {
        toAlloc := |data|;
      }
      var tmp := FilledChain(toAlloc, data[remain..]);
      assert data == data[..remain] + data[remain..];
      ghost var v := m.InsertIndex();
      TailVictims(m);
      GrownTail(m, data[..remain]);
      ReplacedTail(m, tmp, data[remain..]);
      if remain != 0 {
        v := |m.spine|;
        AppendLast(data[..remain]);
        RealLen(m);
        AppendedTail(m, tmp, data[remain..]);
      }
      PackedInserts(m, tmp, data[remain..]);
      ChainInsert(tmp, v);
    }

    /** A new chain with room for `size` bytes that holds `d`. */
    static method FilledChain(size: nat, d: seq<byte>) returns (tmp: Chain)
      requires |d| <= size
      ensures fresh(tmp) && fresh(tmp.buffer) && tmp.next == null && tmp.Ok() && tmp.Data() == d
    {
      tmp := new Chain(size);
      tmp.Append(d);
    }

    /**
     evbuffer_add.  It appends the data; last_with_datap is right afterwards
     unless the data went into or behind empty chains that a reservation left.
    */
    method Add(data: seq<byte>) returns (r: int)
      requires Valid() && MayAdd(data)
      modifies this`first, this`last, this`lastWithDataP, this`totalLen, this`m, m.repr
      ensures Shape() && fresh(m.repr - old(m.repr)) && (old(Ready()) ==> Ready())
      ensures r == if freezeEnd || |data| > EV_SIZE_MAX - old(totalLen) then -1 else 0
      ensures Content() == if r == 0 then old(Content()) + data else old(Content())
      ensures Valid() <==> r == -1 || old(KeepsTrack(data))
    {
      hide Real, Flat, Chain.Data, Layout.Packed, Layout.TailEmpty, Layout.VictimsFrom;
      RealLen(m);
      if freezeEnd {
        return -1;
      }
      if |data| > EV_SIZE_MAX - totalLen {
        return -1;
      }
      if last == null {
        var chain := new Chain(|data|);
        NothingYet(m, chain);
        ChainInsert(chain, 0);
      }
      RealLen(m);
      GrownTail(m, data);
      var chain := last;
      if chain.SpaceLen() >= |data| {
        AppendLast(data);
      } else if ShouldRealign(chain.buffer.Length, chain.off, |data|) {
        AlignLast();
        AppendLast(data);
      } else {
        AddNewChain(data);
      }
      r := 0;
    }

    /** Without an outstanding reservation evbuffer_add is always possible and loses nothing from sight. */
    lemma ReadyToAdd(data: seq<byte>)
      requires Ready()
      ensures Valid() && MayAdd(data) && KeepsTrack(data)
    {
      RealLen(m);
    }

    /** Copy `d` into the free memory in front of the first chain's data. */
    method PrependFirst(d: seq<byte>)
      requires Shape() && first != null && |d| <= first.misalign
      modifies this`m, this`totalLen, first`off, first`misalign, first.buffer
      ensures Shape() && |old(m.segs)| == |old(m.spine)|
      ensures m == old(m.Set(0, d + m.segs[0])) && Content() == d + old(Content())
      ensures first.misalign == old(first.misalign) - |d|
    {
      hide Real, Flat, Chain.Data;
      ghost var was := m;
      RealAt(m, 0);
      FlatPrependFirst(m.segs, d);
      label before:
      first.Prepend(d);
      m, totalLen := m.Set(0, d + m.segs[0]), totalLen + |d|;
      ChainChanged@before(was, 0, d + was.segs[0]);
    }

    /** `chain->misalign = chain->buffer_len` for an empty first chain: its free memory now counts as being in front. */
    method EmptyAtBeginning()
      requires Shape() && first != null && first.off == 0
      modifies first`misalign
      ensures Shape() && first.misalign == first.buffer.Length
    {
      hide Real, Flat, Chain.Data;
      RealAt(m, 0);
      label before:
      first.misalign := first.buffer.Length;
      ChainChanged@before(m, 0, m.segs[0]);
      assert m.Set(0, m.segs[0]) == m;
    }

    /** A new chain that holds `d` at the end of its memory. */
    static method FilledAtEnd(d: seq<byte>) returns (tmp: Chain)
      ensures fresh(tmp) && fresh(tmp.buffer) && tmp.next == null && tmp.Ok() && tmp.Data() == d
    {
      tmp := new Chain(|d|);
      tmp.misalign := tmp.buffer.Length;
      tmp.Prepend(d);
    }

    /** The new-chain path of evbuffer_prepend: `d` goes to the end of a new first chain. */
    method PrependChain(d: seq<byte>)
      requires Shape() && first != null
      modifies this`first, this`lastWithDataP, this`totalLen, this`m
      ensures Shape() && fresh(m.repr - old(m.repr)) && old(m.repr) <= m.repr
      ensures m.segs == [d] + old(m.segs) && m.lwd == old(m.lwd) + 1
      ensures Content() == d + old(Content())
    {
      hide Real, Flat, Chain.Data;
      RealLen(m);
      FlatAppend([d], m.segs);
      FlatOne(d);
      ghost var was := m;
      var chain := first;
      var tmp := FilledAtEnd(d);
      first := tmp;
      if lastWithDataP == null {
        lastWithDataP := tmp;
      }
      tmp.next := chain;
      totalLen, m := totalLen + |d|, Layout([tmp] + m.spine, [d] + m.segs, m.lwd + 1, m.repr + {tmp, tmp.buffer});
      assert tmp.Data() == d;
      RealCons(was, tmp, was.lwd + 1);
    }

    /** The body of evbuffer_prepend for a buffer that has a chain. */
    method PrependData(data: seq<byte>)
      requires Valid() && first != null
      modifies this`first, this`lastWithDataP, this`totalLen, this`m, m.repr
      ensures Valid() && (old(Ready()) ==> Ready()) && fresh(m.repr - old(m.repr))
      ensures Content() == data + old(Content())
    {
      hide Real, Flat, Chain.Data, Layout.TailEmpty, Layout.Packed;
      RealAt(m, 0);
      if first.off == 0 {
        EmptyAtBeginning();
        RealAt(m, 0);
      }
      FrontGrows(m, data);
      if first.misalign >= |data| {
        PrependFirst(data);
      } else {
        var rest := data;
        if first.misalign != 0 {
          rest := data[..|data| - first.misalign];
          FrontGrows(m, data[|rest|..]);
          PrependFirst(data[|data| - first.misalign..]);
          assert data == rest + data[|rest|..];
        }
        RealAt(m, 0);
        ghost var before := m;
        PrependChain(rest);
        NewFront(before, m, rest);
      }
    }

    /** evbuffer_prepend */
    method Prepend(data: seq<byte>) returns (r: int)
      requires Valid()
      modifies this`first, this`last, this`lastWithDataP, this`totalLen, this`m, m.repr
      ensures Valid() && (old(Ready()) ==> Ready()) && fresh(m.repr - old(m.repr))
      ensures r == if freezeStart || |data| > EV_SIZE_MAX - old(totalLen) then -1 else 0
      ensures Content() == if r == 0 then data + old(Content()) else old(Content())
    {
      hide Real, Flat, Chain.Data;
      RealLen(m);
      if freezeStart {
        return -1;
      }
      if |data| > EV_SIZE_MAX - totalLen {
        return -1;
      }
      if first == null {
        var chain := new Chain(|data|);
        ChainInsert(chain, 0);
      }
      PrependData(data);
      r := 0;
    }

    /** The chain walk of evbuffer_drain: pass over the chains that `len` bytes use up. */
    method DrainWalk(len: nat) returns (chain: Chain?, remaining: nat, ghost k: nat)
      requires Valid() && len < totalLen
      modifies this`lastWithDataP
      ensures k <= m.lwd < |m.spine| == |m.segs| && chain == m.spine[k] && remaining < |m.segs[k]|
      ensures |Flat(m.segs[..k])| + remaining == len
      ensures lastWithDataP == if k == m.lwd then null else m.Owner(m.lwd)
    {
      hide Flat;
      chain, remaining, k := first, len, 0;
      assert |Flat(m.segs[..0])| == 0 by { FlatEmpty(m.segs[..0]); }
      assert m.segs != [] by { if m.segs == [] { FlatEmpty(m.segs); } }
      while remaining >= chain.off
        invariant k <= m.lwd < |m.spine| && chain == m.spine[k]
        invariant |Flat(m.segs[..k])| + remaining == len
        invariant lastWithDataP == if k == m.lwd then null else m.Owner(m.lwd)
        decreases m.lwd - k
      {
        var next := chain.next;
        RealAt(m, k);
        FlatAt(m.segs, k);
        MoreData(m, k);
        remaining := remaining - chain.off;
        if chain == (if lastWithDataP == null then first else lastWithDataP.next) {
          assert false; // data is left, so *last_with_datap is not used up
        }
        if chain == lastWithDataP {
          lastWithDataP := null;
        }
        chain, k := next, k + 1;
      }
    }

    /** evbuffer_drain */
    method Drain(len: nat) returns (r: int)
      requires Valid()
      modifies this`first, this`last, this`lastWithDataP, this`totalLen, this`m, m.repr
      ensures Valid() && (old(Ready()) ==> Ready()) && m.repr <= old(m.repr)
      ensures r == if old(totalLen) != 0 && freezeStart then -1 else 0
      ensures r == 0 ==> Content() == if len < old(totalLen) then old(Content())[len..] else []
      ensures r == -1 ==> Content() == old(Content())
    {
      hide Real, Flat, Chain.Data;
      if totalLen == 0 {
        return 0;
      }
      if freezeStart {
        return -1;
      }
      if len >= totalLen {
        ZeroChain();
      } else {
        DrainSome(len);
      }
      r := 0;
    }

    /** ZERO_CHAIN, the chains having been freed. */
    method ZeroChain()
      modifies this`first, this`last, this`lastWithDataP, this`totalLen, this`m
      ensures Ready() && m == Layout([], [], 0, {}) && Content() == []
    {
      first, last, lastWithDataP, totalLen := null, null, null, 0;
      m := Layout([], [], 0, {});
    }

    /** The part of evbuffer_drain that leaves data in the buffer. */
    method DrainSome(len: nat)
      requires Valid() && len < totalLen
      modifies this`first, this`lastWithDataP, this`totalLen, this`m, m.repr
      ensures Valid() && (old(Ready()) ==> Ready()) && m.repr <= old(m.repr)
      ensures Content() == old(Content())[len..]
    {
      hide Real, Flat, Chain.Data, Layout.TailEmpty, Layout.Packed, Layout.Owner;
      ghost var was := m;
      RealLen(m);
      var chain, remaining, k := DrainWalk(len);
      totalLen := totalLen - len;
      RealDrop(was, k);
      RealAt(was, k);
      FlatDrop(m.segs, k, remaining);
      DropKeepsOrder(m, k, m.segs[k][remaining..]);
      label before:
      chain.DropFront(remaining);
      first := chain;
      m := was.Drop(k).Set(0, was.segs[k][remaining..]);
      ChainChanged@before(was.Drop(k), 0, was.segs[k][remaining..]);
    }

    /** evbuffer_copyout */
    method Copyout(datlen: nat) returns (r: int, out: seq<byte>)
      requires Valid()
      ensures r == if datlen == 0 || totalLen == 0 then 0 else if freezeStart then -1
                   else if datlen < totalLen then datlen else totalLen
      ensures out == if r < 0 then [] else Content()[..r]
    {
      hide Real, Flat, Chain.Data;
      RealLen(m);
      var left: nat := if datlen >= totalLen then totalLen else datlen;
      if left == 0 {
        return 0, [];
      }
      if freezeStart {
        return -1, [];
      }
      r, out := left, [];
      var chain := first;
      ghost var k := 0;
      FlatEmpty(m.segs[..0]);
      CopyStep(m.segs, 0, r);
      while left != 0 && left >= chain.off
        invariant k <= |m.segs| && chain == m.At(k)
        invariant out == Flat(m.segs[..k]) && |out| + left == r
        invariant left != 0 ==> k < |m.segs|
        decreases |m.segs| - k
      {
        RealAt(m, k);
        CopyStep(m.segs, k, r);
        out := out + chain.Data();
        left := left - chain.off;
        chain, k := chain.next, k + 1;
      }
      FlatSplit(m.segs, k);
      if left != 0 {
        RealAt(m, k);
        FlatAt(m.segs, k);
        out := out + chain.Data()[..left];
      }
    }

    /** evbuffer_remove */
    method Remove(datlen: nat) returns (r: int, out: seq<byte>)
      requires Valid()
      modifies this`first, this`last, this`lastWithDataP, this`totalLen, this`m, m.repr
      ensures Valid() && (old(Ready()) ==> Ready()) && m.repr <= old(m.repr)
      ensures r == if datlen == 0 || old(totalLen) == 0 then 0 else if freezeStart then -1
                   else if datlen < old(totalLen) then datlen else old(totalLen)
      ensures r >= 0 ==> old(Content()) == out + Content() && |out| == r
      ensures r < 0 ==> Content() == old(Content()) && out == []
    {
      hide Real, Flat, Chain.Data;
      r, out := Copyout(datlen);
      if r > 0 {
        var d := Drain(r);
        if d < 0 {
          r := -1;
        }
      }
    }
  }

  /** evbuffer_chain_should_realign */
  predicate ShouldRealign(capacity: nat, off: nat, datlen: nat)
    requires off <= capacity
  {
    capacity - off >= datlen && off < capacity / 2 && off <= MAX_TO_REALIGN_IN_EXPAND
  }
}
