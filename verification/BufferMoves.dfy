/** Moving data between two evbuffers by relinking chains (buffer.c). */
module BufferMoves {
  import opened Bytes
  import opened Chains
  import opened EvBuffers

  /** Two buffers share no chain and no memory. */
  ghost predicate Apart(a: EvBuffer, b: EvBuffer)
    reads a, b
  {
    a != b && a.m.repr !! b.m.repr && a !in b.m.repr && b !in a.m.repr
  }

  /** COPY_CHAIN */
  method CopyChain(dst: EvBuffer, src: EvBuffer)
    requires src.Shape() && Apart(dst, src)
    modifies dst`first, dst`last, dst`lastWithDataP, dst`totalLen, dst`m
    ensures dst.Shape() && dst.m == src.m
  {
    hide Real, Flat;
    dst.first := src.first;
    if src.lastWithDataP == null {
      dst.lastWithDataP := null;
    } else {
      dst.lastWithDataP := src.lastWithDataP;
    }
    dst.last, dst.totalLen, dst.m := src.last, src.totalLen, src.m;
  }

  /** APPEND_CHAIN: the chains of `src` linked behind those of `dst`, which is not empty. */
  method AppendChain(dst: EvBuffer, src: EvBuffer)
    requires dst.Shape() && src.Shape() && Apart(dst, src) && dst.m.spine != [] && src.m.spine != []
    modifies dst`last, dst`lastWithDataP, dst`totalLen, dst`m, dst.m.repr
    ensures dst.Shape() && dst.m == old(Join(dst.m, src.m, |dst.m.spine| + src.m.lwd))
    ensures dst.Content() == old(dst.Content()) + src.Content()
  {
    hide Real, Flat;
    ghost var a, b := dst.m, src.m;
    RealAt(a, |a.spine| - 1);
    FlatAppend(a.segs, b.segs);
    label before:
    dst.last.next := src.first;
    if src.lastWithDataP == null {
      dst.lastWithDataP := dst.last;
    } else {
      dst.lastWithDataP := src.lastWithDataP;
    }
    dst.last, dst.totalLen, dst.m := src.last, dst.totalLen + src.totalLen, Join(a, b, |a.spine| + b.lwd);
    ListsJoined@before(a, b, |a.spine| + b.lwd);
  }

  /** PREPEND_CHAIN: the chains of `src` linked in front of those of `dst`, which is not empty. */
  method PrependChains(dst: EvBuffer, src: EvBuffer)
    requires dst.Shape() && src.Shape() && Apart(dst, src) && dst.m.spine != [] && src.m.spine != []
    modifies dst`first, dst`lastWithDataP, dst`totalLen, dst`m, src.m.repr
    ensures dst.Shape() && dst.m == old(Join(src.m, dst.m, |src.m.spine| + dst.m.lwd))
    ensures dst.Content() == src.Content() + old(dst.Content())
  {
    hide Real, Flat;
    ghost var a, b := src.m, dst.m;
    RealAt(a, |a.spine| - 1);
    FlatAppend(a.segs, b.segs);
    var hadChain := dst.LastWithData() != null;
    label before:
    src.last.next := dst.first;
    dst.first, dst.totalLen := src.first, dst.totalLen + src.totalLen;
    if !hadChain {
      assert false; // PREPEND_CHAIN provides for a destination without chains; its callers never pass one
    } else if dst.lastWithDataP == null {
      dst.lastWithDataP := src.last;
    }
    dst.m := Join(a, b, |a.spine| + b.lwd);
    ListsJoined@before(a, b, |a.spine| + b.lwd);
  }

  /** evbuffer_add_buffer */
  method AddBuffer(outbuf: EvBuffer, inbuf: EvBuffer) returns (r: int)
    requires outbuf.Valid() && inbuf.Valid() && (outbuf != inbuf ==> Apart(outbuf, inbuf))
    modifies outbuf`first, outbuf`last, outbuf`lastWithDataP, outbuf`totalLen, outbuf`m, outbuf.m.repr
    modifies inbuf`first, inbuf`last, inbuf`lastWithDataP, inbuf`totalLen, inbuf`m
    ensures outbuf.Valid() && inbuf.Valid() && (outbuf != inbuf ==> Apart(outbuf, inbuf))
    ensures old(outbuf.Ready() && inbuf.Ready()) ==> outbuf.Ready() && inbuf.Ready()
    ensures outbuf.m.repr <= old(outbuf.m.repr + inbuf.m.repr) && inbuf.m.repr <= old(inbuf.m.repr)
    ensures r == if old(inbuf.totalLen) == 0 || outbuf == inbuf then 0
                 else if outbuf.freezeEnd || inbuf.freezeStart then -1 else 0
    ensures outbuf != inbuf && r == 0 ==>
      outbuf.Content() == old(outbuf.Content() + inbuf.Content()) && inbuf.Content() == []
    ensures outbuf == inbuf || r != 0 ==>
      outbuf.Content() == old(outbuf.Content()) && inbuf.Content() == old(inbuf.Content())
  {
    hide Real, Flat;
    if inbuf.totalLen == 0 || outbuf == inbuf {
      return 0;
    }
    if outbuf.freezeEnd || inbuf.freezeStart {
      return -1;
    }
    HasChain(inbuf.m);
    if outbuf.totalLen == 0 {
      CopyChain(outbuf, inbuf);
    } else {
      HasChain(outbuf.m);
      AppendChain(outbuf, inbuf);
    }
    inbuf.ZeroChain();
    r := 0;
  }

  /** evbuffer_prepend_buffer */
  method PrependBuffer(outbuf: EvBuffer, inbuf: EvBuffer) returns (r: int)
    requires outbuf.Valid() && inbuf.Valid() && (outbuf != inbuf ==> Apart(outbuf, inbuf))
    modifies outbuf`first, outbuf`last, outbuf`lastWithDataP, outbuf`totalLen, outbuf`m
    modifies inbuf`first, inbuf`last, inbuf`lastWithDataP, inbuf`totalLen, inbuf`m, inbuf.m.repr
    ensures outbuf.Valid() && inbuf.Valid() && (outbuf != inbuf ==> Apart(outbuf, inbuf))
    ensures old(outbuf.Ready() && inbuf.Ready()) ==> outbuf.Ready() && inbuf.Ready()
    ensures outbuf.m.repr <= old(outbuf.m.repr + inbuf.m.repr) && inbuf.m.repr <= old(inbuf.m.repr)
    ensures r == if old(inbuf.totalLen) == 0 || outbuf == inbuf then 0
                 else if outbuf.freezeStart || inbuf.freezeStart then -1 else 0
    ensures outbuf != inbuf && r == 0 ==>
      outbuf.Content() == old(inbuf.Content() + outbuf.Content()) && inbuf.Content() == []
    ensures outbuf == inbuf || r != 0 ==>
      outbuf.Content() == old(outbuf.Content()) && inbuf.Content() == old(inbuf.Content())
  {
    hide Real, Flat;
    if inbuf.totalLen == 0 || inbuf == outbuf {
      return 0;
    }
    if outbuf.freezeStart || inbuf.freezeStart {
      return -1;
    }
    HasChain(inbuf.m);
    if outbuf.totalLen == 0 {
      CopyChain(outbuf, inbuf);
    } else {
      HasChain(outbuf.m);
      PrependChains(outbuf, inbuf);
    }
    inbuf.ZeroChain();
    r := 0;
  }

  /** A buffer with data has a chain, and last_with_datap leads to one that holds data. */
  lemma HasChain(m: Layout)
    requires Real(m) && m.TailEmpty() && |Flat(m.segs)| > 0
    ensures |m.segs| == |m.spine| && m.spine != [] && m.segs[m.lwd] != []
  {
    if m.lwd == 0 && (m.segs == [] || m.segs[0] == []) {
      FlatEmpty(m.segs);
    }
  }

  /** The chain walk of evbuffer_remove_buffer: pass over the chains that `datlen` bytes use up. */
  method MoveWalk(src: EvBuffer, datlen: nat)
    returns (chain: Chain?, previous: Chain?, nread: nat, left: nat, ghost k: nat)
    requires src.Valid() && datlen < src.totalLen
    modifies src`lastWithDataP
    ensures k <= src.m.lwd < |src.m.spine| == |src.m.segs| && chain == src.m.spine[k] && left < |src.m.segs[k]|
    ensures |Flat(src.m.segs[..k])| == nread && nread + left == datlen
    ensures previous == if k == 0 then src.m.spine[0] else src.m.spine[k - 1]
    ensures src.lastWithDataP == if k == src.m.lwd then null else src.m.Owner(src.m.lwd)
  {
    hide Flat, Chain.Data;
    chain, previous, nread, left, k := src.first, src.first, 0, datlen, 0;
    ghost var m := src.m;
    FlatEmpty(m.segs[..0]);
    HasChain(m);
    while chain.off <= left
      invariant src.m == m && k <= m.lwd < |m.spine| && chain == m.spine[k]
      invariant |Flat(m.segs[..k])| == nread && nread + left == datlen
      invariant previous == if k == 0 then m.spine[0] else m.spine[k - 1]
      invariant src.lastWithDataP == if k == m.lwd then null else m.Owner(m.lwd)
      decreases m.lwd - k
    {
      RealAt(m, k);
      FlatAt(m.segs, k);
      MoreData(m, k);
      nread, left, previous := nread + chain.off, left - chain.off, chain;
      if src.lastWithDataP == chain {
        src.lastWithDataP := null;
      }
      chain, k := chain.next, k + 1;
    }
  }

  /** evbuffer_free_trailing_empty_chains of a buffer without reservations: an empty first chain is freed. */
  method FreeTrailingEmptyChains(dst: EvBuffer) returns (owner: Chain?)
    requires dst.Ready()
    modifies dst`first, dst`last, dst`m
    ensures dst.Ready() && dst.Content() == old(dst.Content()) && dst.m.repr <= old(dst.m.repr)
    ensures owner == dst.m.Owner(|dst.m.spine|) && |dst.m.segs| == |dst.m.spine|
    ensures forall i | 0 <= i < |dst.m.segs| :: dst.m.segs[i] != []
  {
    hide Real, Flat;
    RealLen(dst.m);
    var cur;
    PackedTailEmpty(dst.m);
    TailVictims(dst.m);
    owner, cur := dst.FindVictim(dst.m.InsertIndex());
    if cur != null {
      FlatEmpty(dst.m.segs);
      RealDrop(dst.m, |dst.m.spine|);
      // `*ch = NULL`; the caller sets buf->last
      dst.first, dst.last := null, null;
      dst.m := Layout([], [], 0, {});
      FlatEmpty([]);
      RealNone();
    }
  }

  lemma RealNone()
    ensures Real(Layout([], [], 0, {}))
  {
  }

  /** Cut chains `0..k` off the front of `src`. */
  method CutChains(src: EvBuffer, chain: Chain, previous: Chain, ghost k: nat)
    requires Real(src.m) && src !in src.m.repr
    requires 0 < k < |src.m.spine| == |src.m.segs| && chain == src.m.spine[k] && previous == src.m.spine[k - 1]
    modifies src`first, src`m, previous`next
    ensures src.first == chain && src.m == old(Left(src.m, k)) && Real(src.m) && Real(old(Taken(src.m, k)))
    ensures Mem(old(src.m.spine)[..k]) <= old(src.m.repr)
  {
    hide Real, Flat;
    ghost var b := src.m;
    MemOwned(b, k);
    RealAt(b, k - 1);
    label before:
    previous.next := null;
    src.first, src.m := chain, Left(b, k);
    ListCut@before(b, k);
  }

  lemma MemOwned(m: Layout, k: nat)
    requires Real(m) && k <= |m.spine|
    ensures Mem(m.spine[..k]) <= m.repr
  {
  }

  /** Link the chains of the list `t` behind the last chain of `dst`. */
  method LinkChains(dst: EvBuffer, owner: Chain?, head: Chain, tail: Chain, nread: nat, ghost t: Layout)
    requires dst.Ready() && owner == dst.m.Owner(|dst.m.spine|) && Real(t) && t.repr !! dst.m.repr && dst !in t.repr
    requires t.spine != [] && head == t.spine[0] && tail == t.spine[|t.spine| - 1] && nread == |Flat(t.segs)|
    modifies dst`first, dst`last, dst`totalLen, dst`m, dst.m.repr
    ensures dst.Shape() && dst.m == old(Join(dst.m, t, dst.m.lwd)) && Real(t)
  {
    hide Real, Flat;
    ghost var a := dst.m;
    RealLen(a);
    FlatAppend(a.segs, t.segs);
    if owner != null {
      RealAt(a, |a.spine| - 1);
    }
    label before:
    if dst.first == null {
      dst.first := head;
    } else {
      owner.next := head;
    }
    dst.last, dst.totalLen, dst.m := tail, dst.totalLen + nread, Join(a, t, a.lwd);
    if owner == null {
      JoinNone(a, t, a.lwd);
    } else {
      ListsJoined@before(a, t, a.lwd);
    }
  }

  lemma JoinNone(a: Layout, b: Layout, newLwd: nat)
    requires a.spine == [] && a.segs == [] && Real(b) && a.repr !! b.repr
    ensures Real(Join(a, b, newLwd))
  {
    assert a.spine + b.spine == b.spine && a.segs + b.segs == b.segs;
  }

  /** Chains `0..k` of `src` move behind the data of `dst`. */
  method SpliceChains(src: EvBuffer, dst: EvBuffer, chain: Chain, previous: Chain, nread: nat, ghost k: nat)
    requires Real(src.m) && src.first == src.m.At(0) && src !in src.m.repr && dst.Ready() && Apart(src, dst)
    requires 0 < k < |src.m.spine| == |src.m.segs| && chain == src.m.spine[k] && previous == src.m.spine[k - 1]
    requires nread == |Flat(src.m.segs[..k])| && forall i | 0 <= i < |src.m.segs| :: src.m.segs[i] != []
    modifies src`first, src`m, src.m.repr
    modifies dst`first, dst`last, dst`lastWithDataP, dst`totalLen, dst`m, dst.m.repr
    ensures dst.Ready() && dst.Content() == old(dst.Content()) + Flat(old(src.m.segs[..k]))
    ensures src.first == chain && src.m == old(Left(src.m, k)) && Real(src.m)
    ensures Apart(src, dst) && dst.m.repr <= old(src.m.repr + dst.m.repr)
  {
    hide Real, Flat;
    RealAt(src.m, k - 1);
    ghost var t := Taken(src.m, k);
    var owner := FreeTrailingEmptyChains(dst);
    FlatAppend(dst.m.segs, t.segs);
    var head := src.first;
    CutChains(src, chain, previous, k);
    LinkChains(dst, owner, head, previous, nread, t);
    dst.AdvanceLastWithData();
  }

  /** Take `left` bytes off the front chain of `src` and settle total_len. */
  method DropRest(src: EvBuffer, chain: Chain, left: nat, r: nat)
    requires Real(src.m) && src !in src.m.repr && src.m.spine != [] && |src.m.segs| == |src.m.spine|
    requires src.first == chain == src.m.spine[0] && src.last == src.m.Owner(|src.m.spine|)
    requires src.m.lwd < |src.m.spine| && src.lastWithDataP == src.m.Owner(src.m.lwd)
    requires left < |src.m.segs[0]| && r <= src.totalLen && src.totalLen - r == |Flat(src.m.segs)| - left
    modifies src`totalLen, src`m, chain`misalign, chain`off
    ensures src.Shape() && src.m == old(src.m.Set(0, src.m.segs[0][left..]))
  {
    hide Real, Flat, Chain.Data;
    ghost var was := src.m;
    RealAt(was, 0);
    FlatDrop(was.segs, 0, left);
    FlatEmpty(was.segs[..0]);
    assert was.segs[0..] == was.segs;
    label before:
    chain.DropFront(left);
    src.totalLen, src.m := src.totalLen - r, was.Set(0, was.segs[0][left..]);
    ChainChanged@before(was, 0, was.segs[0][left..]);
  }

  /** The part of evbuffer_remove_buffer that moves whole chains. */
  method MoveChains(src: EvBuffer, dst: EvBuffer, datlen: nat)
    returns (chain: Chain?, nread: nat, left: nat, ghost k: nat)
    requires src.Ready() && dst.Ready() && Apart(src, dst) && datlen < src.totalLen
    modifies src`first, src`lastWithDataP, src`m, src.m.repr
    modifies dst`first, dst`last, dst`lastWithDataP, dst`totalLen, dst`m, dst.m.repr
    ensures Apart(src, dst) && src.m.repr + dst.m.repr <= old(src.m.repr + dst.m.repr)
    ensures k <= old(src.m.lwd) < |old(src.m.spine)| == |old(src.m.segs)| && left < |old(src.m.segs)[k]|
    ensures |Flat(old(src.m.segs)[..k])| == nread && nread + left == datlen
    ensures Real(src.m) && src.m == old(src.m).(spine := old(src.m.spine)[k..], segs := old(src.m.segs)[k..],
                                                lwd := old(src.m.lwd) - k, repr := src.m.repr)
    ensures src.first == chain == src.m.spine[0] && src.last == src.m.Owner(|src.m.spine|)
    ensures src.lastWithDataP == src.m.Owner(src.m.lwd)
    ensures dst.Ready() && dst.Content() == old(dst.Content()) + Flat(old(src.m.segs)[..k])
  {
    hide Real, Flat, Chain.Data;
    var previous;
    chain, previous, nread, left, k := MoveWalk(src, datlen);
    MovedAny(src.m, k);
    if nread != 0 {
      SpliceChains(src, dst, chain, previous, nread, k);
    }
  }

  /** Chains without data do not occur, so passing over a chain moves data. */
  lemma MovedAny(m: Layout, k: nat)
    requires m.Packed() && k <= m.lwd < |m.segs| == |m.spine| && m.segs[k] != []
    ensures k == 0 <==> |Flat(m.segs[..k])| == 0
    ensures k == 0 ==> m.spine[k..] == m.spine && m.segs[k..] == m.segs
    ensures forall i | 0 <= i < |m.segs| :: m.segs[i] != []
  {
  }

  /** evbuffer_remove_buffer for fewer bytes than `src` holds. */
  method RemoveSome(src: EvBuffer, dst: EvBuffer, datlen: nat) returns (r: nat)
    requires src.Ready() && dst.Ready() && Apart(src, dst) && datlen < src.totalLen && !dst.freezeEnd
    modifies src`first, src`lastWithDataP, src`totalLen, src`m, src.m.repr
    modifies dst`first, dst`last, dst`lastWithDataP, dst`totalLen, dst`m, dst.m.repr
    ensures src.Ready() && dst.Ready() && Apart(src, dst) && r == datlen
    ensures fresh(src.m.repr + dst.m.repr - old(src.m.repr + dst.m.repr))
    ensures src.Content() == old(src.Content())[datlen..]
    ensures datlen <= EV_SIZE_MAX - old(dst.totalLen) ==>
      dst.Content() == old(dst.Content()) + old(src.Content())[..datlen]
  {
    hide Real, Flat, Chain.Data, Layout.Packed, Layout.TailEmpty, EvBuffer.MayAdd, EvBuffer.KeepsTrack;
    ghost var was := src.m;
    var chain, nread, left; ghost var k;
    chain, nread, left, k := MoveChains(src, dst, datlen);
    MovedContent(was.segs, k, left);
    PackedCut(was, src.m, k, left);
    RealAt(src.m, 0);
    dst.ReadyToAdd(chain.Data()[..left]);
    var added := dst.Add(chain.Data()[..left]);
    r := nread + left;
    DropRest(src, chain, left, r);
  }

  lemma PackedCut(m: Layout, r: Layout, k: nat, left: nat)
    requires m.Packed() && |m.segs| == |m.spine| && k <= m.lwd < |m.segs| && left < |m.segs[k]|
    requires r.segs == m.segs[k..] && r.lwd == m.lwd - k
    ensures r.Set(0, r.segs[0][left..]).Packed() && r.lwd < |r.segs|
  {
  }

  lemma MovedContent(segs: seq<seq<byte>>, k: nat, left: nat)
    requires k < |segs| && left <= |segs[k]|
    ensures var n := |Flat(segs[..k])|;
            && n + left <= |Flat(segs)| && |Flat(segs[k..])| == |Flat(segs)| - n
            && Flat(segs[k..][0 := segs[k][left..]]) == Flat(segs)[n + left..]
            && Flat(segs[..k]) + segs[k][..left] == Flat(segs)[..n + left]
  {
    FlatSplit(segs, k);
    FlatAt(segs, k);
    FlatDrop(segs, k, left);
  }

  /** evbuffer_remove_buffer: move the first `datlen` bytes of `src` behind the data of `dst`. */
  method RemoveBuffer(src: EvBuffer, dst: EvBuffer, datlen: nat) returns (r: int)
    requires src.Ready() && dst.Ready() && (src != dst ==> Apart(src, dst))
    modifies src`first, src`last, src`lastWithDataP, src`totalLen, src`m, src.m.repr
    modifies dst`first, dst`last, dst`lastWithDataP, dst`totalLen, dst`m, dst.m.repr
    ensures src.Ready() && dst.Ready() && (src != dst ==> Apart(src, dst))
    ensures fresh(src.m.repr + dst.m.repr - old(src.m.repr + dst.m.repr))
    ensures r == if datlen == 0 || dst == src then 0 else if dst.freezeEnd || src.freezeStart then -1
                 else if datlen < old(src.totalLen) then datlen else old(src.totalLen)
    ensures r <= 0 ==> src.Content() == old(src.Content()) && dst.Content() == old(dst.Content())
    ensures r > 0 ==> src.Content() == old(src.Content())[r..]
    ensures r > 0 && (datlen >= old(src.totalLen) || datlen <= EV_SIZE_MAX - old(dst.totalLen)) ==>
      dst.Content() == old(dst.Content()) + old(src.Content())[..r]
  {
    hide Real, Flat;
    if datlen == 0 || dst == src {
      return 0;
    }
    if dst.freezeEnd || src.freezeStart {
      return -1;
    }
    if datlen >= src.totalLen {
      r := src.totalLen;
      var moved := AddBuffer(dst, src);
    } else {
      r := RemoveSome(src, dst, datlen);
    }
  }
}
