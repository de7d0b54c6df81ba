/** evbuffer_pullup: make the first `size` bytes contiguous (buffer.c). */
module BufferPullup {
  import opened Bytes
  import opened Chains
  import opened EvBuffers

  /**
   The copy loop: whole chains of the list `t` go to `dst` from `at0` on while
   they fit into `left0`.  `w` is the index in `t` of the last chain with data.
  */
  method Gather(buf: EvBuffer, dst: Chain, at0: nat, start: Chain?, left0: nat, lastWithData: Chain?,
                ghost t: Layout, ghost w: nat)
    returns (chain: Chain?, at: nat, left: nat, removedLast: bool, removedLink: bool, ghost k: nat)
    requires Real(t) && start == t.At(0) && dst.buffer !in t.repr && at0 + left0 <= dst.buffer.Length
    requires w < |t.spine| && lastWithData == t.spine[w] && (w > 0 ==> buf.lastWithDataP == t.spine[w - 1])
    requires w == 0 ==> buf.lastWithDataP == dst && dst !in t.repr
    requires left0 <= |Flat(t.segs)|
    modifies dst.buffer
    ensures Real(t) && k <= |t.spine| == |t.segs| && chain == t.At(k)
    ensures at == at0 + |Flat(t.segs[..k])| && at + left == at0 + left0
    ensures dst.buffer[..at0] == old(dst.buffer[..at0]) && dst.buffer[at0..at] == Flat(t.segs[..k])
    ensures k < |t.segs| ==> left < |t.segs[k]|
    ensures removedLast == (k > w) && removedLink == (w > 0 && k >= w)
  {
    hide Flat, Chain.Data;
    RealLen(t);
    chain, at, left, removedLast, removedLink, k := start, at0, left0, false, false, 0;
    FlatEmpty(t.segs[..0]);
    while chain != null && left >= chain.off
      invariant k <= |t.segs| && chain == t.At(k)
      invariant at == at0 + |Flat(t.segs[..k])| && at + left == at0 + left0
      invariant dst.buffer[..at0] == old(dst.buffer[..at0]) && dst.buffer[at0..at] == Flat(t.segs[..k])
      invariant removedLast == (k > w) && removedLink == (w > 0 && k >= w)
      decreases |t.segs| - k
    {
      RealAt(t, k);
      FlatAt(t.segs, k);
      var next := chain.next;
      dst.Write(at, chain.Data());
      left, at := left - chain.off, at + chain.off;
      if chain == lastWithData {
        removedLast := true;
      }
      if chain == buf.lastWithDataP {
        removedLink := true;
      }
      chain, k := next, k + 1;
    }
    if k < |t.segs| {
      RealAt(t, k);
    }
  }

  /** The list that is left when `k` chains and `left` bytes of the next have been copied away. */
  ghost function Remainder(t: Layout, k: nat, left: nat): Layout
    requires k <= |t.spine| == |t.segs| && (k < |t.segs| ==> left <= |t.segs[k]|)
  {
    if k < |t.segs| then t.Drop(k).Set(0, t.segs[k][left..]) else t.Drop(k)
  }

  /** The bytes that stay behind are exactly those not copied. */
  lemma RemainderContent(t: Layout, k: nat, left: nat, n: nat)
    requires k <= |t.spine| == |t.segs| && n == |Flat(t.segs[..k])| + left && n <= |Flat(t.segs)|
    requires k < |t.segs| ==> left < |t.segs[k]|
    ensures Flat(t.segs) == Flat(t.segs)[..n] + Flat(Remainder(t, k, left).segs)
    ensures Flat(t.segs)[..n] == Flat(t.segs[..k]) + if k < |t.segs| then t.segs[k][..left] else []
  {
    FlatSplit(t.segs, k);
    if k < |t.segs| {
      FlatAt(t.segs, k);
      FlatDrop(t.segs, k, left);
    } else {
      FlatEmpty(t.segs[k..]);
    }
  }

  /** The copy of the first `left` bytes of chain `k`, which keeps the others. */
  method CopyPart(dst: Chain, at: nat, chain: Chain, left: nat, ghost t: Layout, ghost k: nat)
    requires Real(t) && k < |t.spine| == |t.segs| && chain == t.spine[k] && left < |t.segs[k]|
    requires dst.buffer !in t.repr && at + left <= dst.buffer.Length
    modifies dst.buffer, chain`misalign, chain`off
    ensures Real(Remainder(t, k, left))
    ensures dst.buffer[..at] == old(dst.buffer[..at]) && dst.buffer[at..at + left] == t.segs[k][..left]
  {
    hide Real, Chain.Data;
    RealAt(t, k);
    RealDrop(t, k);
    dst.Write(at, chain.Data()[..left]);
    label before:
    chain.DropFront(left);
    ChainChanged@before(t.Drop(k), 0, t.segs[k][left..]);
  }

  /** `dst` in front of the list `r`, as the buffer's new layout. */
  ghost function Front(dst: Chain, d: seq<byte>, r: Layout, newLwd: nat): Layout
  {
    Layout([dst] + r.spine, [d] + r.segs, newLwd, r.repr + {dst, dst.buffer})
  }

  /** Link `dst`, which holds `d`, in front of what is left and repair last_with_datap. */
  method LinkFront(buf: EvBuffer, dst: Chain, chain: Chain?, removedLast: bool, removedLink: bool,
                   ghost d: seq<byte>, ghost r: Layout, ghost newLwd: nat)
    requires Real(r) && chain == r.At(0) && buf !in r.repr && dst !in r.repr && dst.buffer !in r.repr
    requires dst.Ok() && dst.Data() == d && buf.first == dst && |r.spine| == |r.segs|
    requires buf.last == if r.spine == [] then dst else r.Owner(|r.spine|)
    requires newLwd <= |r.spine| && buf.totalLen == |d| + |Flat(r.segs)|
    requires if removedLast then newLwd == 0
             else if removedLink then newLwd == 1 && r.segs[0] != []
             else buf.lastWithDataP == Front(dst, d, r, newLwd).Owner(newLwd)
    modifies buf`lastWithDataP, buf`m, dst`next
    ensures buf.Shape() && buf.m == Front(dst, d, r, newLwd) && dst.Ok() && dst.Data() == d
    ensures buf.Content() == d + Flat(r.segs)
  {
    hide Real, Flat, Chain.Data;
    if r.spine != [] {
      RealAt(r, 0);
    }
    dst.next := chain;
    if removedLast {
      buf.lastWithDataP := null;
    } else if removedLink {
      if buf.first.next != null && buf.first.next.off != 0 {
        buf.lastWithDataP := buf.first;
      } else {
        buf.lastWithDataP := null;
      }
    }
    buf.m := Front(dst, d, r, newLwd);
    assert dst.Data() == d;
    RealCons(r, dst, newLwd);
    FlatAppend([d], r.segs);
    FlatOne(d);
  }

  /** Where last_with_datap must lead afterwards. */
  lemma FrontOrder(dst: Chain, d: seq<byte>, t: Layout, w: nat, k: nat, left: nat)
    requires k <= |t.spine| == |t.segs| && w < |t.segs| && t.segs[w] != []
    requires forall i | w < i < |t.segs| :: t.segs[i] == []
    requires if k > w then k == |t.segs| else left < |t.segs[k]|
    ensures var f := Front(dst, d, Remainder(t, k, left), if k > w then 0 else w + 1 - k);
            f.TailEmpty() && ((forall i | 0 <= i < |t.segs| :: t.segs[i] != []) && d != [] ==> f.Packed())
  {
    if w + 1 < |t.segs| {
      assert t.segs[w + 1] == [];
    }
  }

  lemma DataIs(c: Chain, at0: nat, at: nat, a: seq<byte>, b: seq<byte>, e: seq<byte>)
    requires c.Ok() && c.misalign <= at0 <= at && c.misalign + c.off == at + |e|
    requires c.buffer[c.misalign..at0] == a && c.buffer[at0..at] == b && c.buffer[at..at + |e|] == e
    ensures c.Data() == a + b + e
  {
  }

  /** Both copy steps: afterwards `dst` holds its old bytes and the first `left0` bytes of `t`. */
  method PullBytes(buf: EvBuffer, dst: Chain, at0: nat, start: Chain?, left0: nat, lastWithData: Chain?,
                   ghost t: Layout, ghost w: nat)
    returns (chain: Chain?, removedLast: bool, removedLink: bool, ghost k: nat, ghost left: nat)
    requires Real(t) && start == t.At(0) && buf !in t.repr && dst !in t.repr && dst.buffer !in t.repr
    requires dst.Ok() && dst.misalign + dst.off == at0 + left0 && dst.misalign <= at0
    requires w < |t.spine| == |t.segs| && lastWithData == t.spine[w]
    requires buf.lastWithDataP == if w > 0 then t.spine[w - 1] else dst
    requires left0 <= |Flat(t.segs)|
    modifies dst.buffer, t.repr
    ensures dst.Ok() && dst.Data() == old(dst.buffer[dst.misalign..at0]) + Flat(t.segs)[..left0]
    ensures k <= |t.segs| && |Flat(t.segs[..k])| + left == left0 && (k < |t.segs| ==> left < |t.segs[k]|)
    ensures Real(Remainder(t, k, left)) && chain == t.At(k)
    ensures removedLast == (k > w) && removedLink == (w > 0 && k >= w)
    ensures Flat(t.segs) == Flat(t.segs)[..left0] + Flat(Remainder(t, k, left).segs)
  {
    hide Real, Flat, Chain.Data;
    RealLen(t);
    ghost var kept := dst.buffer[dst.misalign..at0];
    var at, rest;
    chain, at, rest, removedLast, removedLink, k := Gather(buf, dst, at0, start, left0, lastWithData, t, w);
    left := rest;
    RemainderContent(t, k, left, left0);
    assert dst.buffer[dst.misalign..at0] == kept by { assert dst.buffer[..at0][dst.misalign..] == kept; }
    if chain != null {
      CopyPart(dst, at, chain, rest, t, k);
      assert dst.buffer[..at][dst.misalign..at0] == kept && dst.buffer[..at][at0..] == Flat(t.segs[..k]);
      DataIs(dst, at0, at, kept, Flat(t.segs[..k]), t.segs[k][..left]);
    } else {
      RealDrop(t, k);
      DataIs(dst, at0, at, kept, Flat(t.segs[..k]), []);
    }
  }

  /** Move `left0` bytes of the list `t` behind what `dst` holds already, and put `dst` in front of the rest. */
  method PullInto(buf: EvBuffer, dst: Chain, at0: nat, start: Chain?, left0: nat, lastWithData: Chain?,
                  ghost t: Layout, ghost w: nat)
    requires Real(t) && start == t.At(0) && buf !in t.repr && dst !in t.repr && dst.buffer !in t.repr
    requires buf.first == dst && dst.Ok() && dst.misalign + dst.off == at0 + left0 && dst.misalign <= at0
    requires w < |t.spine| == |t.segs| && lastWithData == t.spine[w] && t.segs[w] != []
    requires forall i | w < i < |t.segs| :: t.segs[i] == []
    requires buf.lastWithDataP == if w > 0 then t.spine[w - 1] else dst
    requires buf.last == t.Owner(|t.spine|) && left0 <= |Flat(t.segs)|
    requires buf.totalLen == at0 - dst.misalign + |Flat(t.segs)|
    modifies buf`last, buf`lastWithDataP, buf`m, dst`next, dst.buffer, t.repr
    ensures buf.Valid() && buf.m.repr == t.repr + {dst, dst.buffer}
    ensures dst.Ok() && dst.Data() == old(dst.buffer[dst.misalign..at0]) + Flat(t.segs)[..left0]
    ensures buf.Content() == old(dst.buffer[dst.misalign..at0]) + Flat(t.segs)
    ensures (forall i | 0 <= i < |t.segs| :: t.segs[i] != []) && at0 - dst.misalign + left0 > 0 ==> buf.Ready()
  {
    hide Real, Flat, Chain.Data, Layout.TailEmpty, Layout.Packed;
    ghost var d := dst.buffer[dst.misalign..at0] + Flat(t.segs)[..left0];
    var chain, removedLast, removedLink, k, left := PullBytes(buf, dst, at0, start, left0, lastWithData, t, w);
    if chain == null {
      buf.last := dst;
    }
    if k > w {
      FlatSplit(t.segs, k);
      FlatEmpty(t.segs[k..]);
    }
    FrontOrder(dst, d, t, w, k, left);
    LinkFront(buf, dst, chain, removedLast, removedLink, d, Remainder(t, k, left), if removedLast then 0 else w + 1 - k);
  }

  /** The last chain with data, seen from behind the first chain. */
  lemma RestOrder(m: Layout)
    requires m.TailEmpty() && |m.segs| == |m.spine| && 0 < m.lwd
    ensures var t := Rest(m);
            && m.lwd - 1 < |t.spine| == |t.segs| && t.segs[m.lwd - 1] != []
            && (forall i | m.lwd - 1 < i < |t.segs| :: t.segs[i] == [])
            && t.Owner(|t.spine|) == m.Owner(|m.spine|) && t.spine[m.lwd - 1] == m.spine[m.lwd]
            && (m.Packed() ==> forall i | 0 <= i < |t.segs| :: t.segs[i] != [])
  {
  }

  /** Pull up into the first chain's own free memory. */
  method PullInPlace(buf: EvBuffer, n: nat)
    requires buf.Valid() && buf.first != null && buf.first.off < n <= buf.totalLen
    requires n <= buf.first.buffer.Length - buf.first.misalign
    modifies buf`last, buf`lastWithDataP, buf`m, buf.m.repr
    ensures buf.Valid() && (old(buf.Ready()) ==> buf.Ready()) && buf.m.repr <= old(buf.m.repr)
    ensures buf.Content() == old(buf.Content()) && buf.first != null && buf.first.Ok()
      && buf.first.Data() == buf.Content()[..n]
  {
    hide Real, Flat, Chain.Data;
    ghost var was := buf.m;
    RealAt(was, 0);
    FlatAt(was.segs, 0);
    FlatEmpty(was.segs[..0]);
    MoreData(was, 0);
    RealRest(was);
    RestOrder(was);
    assert Flat(was.segs) == was.segs[0] + Flat(Rest(was).segs) by { assert was.segs[0..] == was.segs; }
    var chain := buf.first;
    var at0 := chain.misalign + chain.off;
    var start, lastWithData, left0 := chain.next, buf.LastWithData(), n - chain.off;
    FirstData(chain);
    chain.off := n;
    PullInto(buf, chain, at0, start, left0, lastWithData, Rest(was), was.lwd - 1);
  }

  /** Pull up into a new first chain. */
  method PullIntoNew(buf: EvBuffer, n: nat)
    requires buf.Valid() && buf.first != null && buf.first.off < n <= buf.totalLen
    modifies buf`first, buf`last, buf`lastWithDataP, buf`m, buf.m.repr
    ensures buf.Valid() && (old(buf.Ready()) ==> buf.Ready()) && fresh(buf.m.repr - old(buf.m.repr))
    ensures buf.Content() == old(buf.Content()) && buf.first != null && buf.first.Ok()
      && buf.first.Data() == buf.Content()[..n]
  {
    hide Real, Flat, Chain.Data;
    ghost var was := buf.m;
    RealAt(was, 0);
    FlatAt(was.segs, 0);
    FlatEmpty(was.segs[..0]);
    MoreData(was, 0);
    var chain, lastWithData := buf.first, buf.LastWithData();
    var tmp := new Chain(n);
    tmp.off := n;
    buf.first := tmp;
    PullInto(buf, tmp, 0, chain, n, lastWithData, was, was.lwd);
  }

  lemma FirstData(c: Chain)
    requires c.Ok()
    ensures c.Data() == c.buffer[c.misalign..c.misalign + c.off]
  {
  }

  /**
   evbuffer_pullup: null when fewer than `size` bytes are there (or none is
   asked for), else the first chain, which then starts with `size` bytes.
  */
  method Pullup(buf: EvBuffer, size: int) returns (result: Chain?)
    requires buf.Valid()
    modifies buf`first, buf`last, buf`lastWithDataP, buf`m, buf.m.repr
    ensures buf.Valid() && (old(buf.Ready()) ==> buf.Ready()) && fresh(buf.m.repr - old(buf.m.repr))
    ensures buf.Content() == old(buf.Content())
    ensures var n := if size < 0 then buf.totalLen else size;
            if n == 0 || n > buf.totalLen then result == null && buf.m == old(buf.m)
            else result == buf.first && result != null && result.Ok() && buf.Content()[..n] <= result.Data()
  {
    hide Real, Flat, Chain.Data;
    var n := if size < 0 then buf.totalLen else size;
    if n == 0 || n > buf.totalLen {
      return null;
    }
    RealLen(buf.m);
    FirstSegment(buf.m);
    if buf.first.off >= n {
      return buf.first;
    }
    if buf.first.buffer.Length - buf.first.misalign >= n {
      PullInPlace(buf, n);
    } else {
      PullIntoNew(buf, n);
    }
    result := buf.first;
  }

  /** A buffer with data has a first chain, whose data starts the content. */
  lemma FirstSegment(m: Layout)
    requires Real(m) && |Flat(m.segs)| > 0
    ensures m.spine != [] && m.spine[0].Ok() && m.spine[0].Data() <= Flat(m.segs)
  {
  }
}
