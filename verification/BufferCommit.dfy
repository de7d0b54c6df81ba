/** evbuffer_reserve_space and evbuffer_commit_space (buffer.c). */
module BufferCommit {
  import opened Bytes
  import opened Chains
  import opened EvBuffers
  import opened BufferReserve

  /** struct evbuffer_iovec: `len` bytes of `chain`'s memory from `pos` on. */
  datatype Vec = Vec(chain: Chain, pos: nat, len: nat)
  {
    ghost predicate InBounds()
    {
      pos + len <= chain.buffer.Length
    }

    /** What is written there. */
    ghost function Bytes(): (d: seq<byte>)
      requires InBounds()
      reads chain.buffer
      ensures |d| == len
    {
      chain.buffer[pos..pos + len]
    }

    /** The vector starts where the chain's space starts and stays inside it. */
    ghost predicate Fits(c: Chain)
      requires c.Ok()
      reads c`misalign, c`off
    {
      chain == c && pos == c.misalign + c.off && len <= c.SpaceLen()
    }
  }

  /** The bytes written into the vectors, in order. */
  ghost function Written(vecs: seq<Vec>): (d: seq<byte>)
    requires forall v | v in vecs :: v.InBounds()
    reads set v: Vec | v in vecs :: v.chain.buffer
  {
    if vecs == [] then [] else Written(vecs[..|vecs| - 1]) + vecs[|vecs| - 1].Bytes()
  }

  /** The vectors are the spaces of consecutive chains from `f` on. */
  ghost predicate Reserved(m: Layout, f: nat, vecs: seq<Vec>)
    reads m.spine
  {
    && f + |vecs| <= |m.spine|
    && forall i | 0 <= i < |vecs| :: SlotAt(m, f, vecs, i)
  }

  ghost predicate SlotAt(m: Layout, f: nat, vecs: seq<Vec>, i: nat)
    requires i < |vecs| && f + i < |m.spine|
    reads m.spine
  {
    m.spine[f + i].Ok() && vecs[i].Fits(m.spine[f + i])
  }

  ghost function TotalLen(vecs: seq<Vec>): nat
  {
    if vecs == [] then 0 else TotalLen(vecs[..|vecs| - 1]) + vecs[|vecs| - 1].len
  }

  lemma NoVecs(m: Layout, f: nat)
    requires f <= |m.spine|
    ensures Reserved(m, f, []) && TotalLen([]) == 0
  {
  }

  lemma OneMoreVec(m: Layout, f: nat, vecs: seq<Vec>, v: Vec)
    requires Reserved(m, f, vecs) && f + |vecs| < |m.spine|
    requires m.spine[f + |vecs|].Ok() && v.Fits(m.spine[f + |vecs|])
    ensures Reserved(m, f, vecs + [v]) && TotalLen(vecs + [v]) == TotalLen(vecs) + v.len
  {
    var w := vecs + [v];
    assert w[..|vecs|] == vecs;
    forall i | 0 <= i < |w|
      ensures SlotAt(m, f, w, i)
    {
      assert i < |vecs| ==> SlotAt(m, f, vecs, i);
    }
  }

  /** `vecs` are the first vectors, not yet more than the chains up to `e` have to offer. */
  ghost predicate Underway(m: Layout, e: nat, f: nat, vecs: seq<Vec>)
    reads m.spine
  {
    && m.lwd <= f + |vecs| <= e <= |m.spine| && SliceOk(m, m.lwd, f + |vecs|) && Reserved(m, f, vecs)
    && TotalSpace(m.spine[m.lwd..f + |vecs|]) == TotalLen(vecs)
  }

  /** Before the first vector. */
  lemma {:induction false} NoVecsYet(m: Layout, e: nat, howmuch: nat, n: nat)
    requires Real(m) && Offers(m, e, howmuch, n)
    ensures forall c | c in m.spine :: c.Ok()
    ensures e - SpaceIndex(m) <= n && Underway(m, e, SpaceIndex(m), []) && TotalLen([]) == 0
  {
    hide Flat, Chain.Data, TotalSpace, TotalLen, Reserved;
    NoSpace(m, m.lwd);
    SpaceStep(m, m.lwd, m.lwd);
    NoVecs(m, SpaceIndex(m));
  }

  /** As long as the vectors are not enough, there is another chain. */
  lemma {:induction false} NextChain(m: Layout, e: nat, howmuch: nat, n: nat, f: nat, vecs: seq<Vec>)
    requires Real(m) && Offers(m, e, howmuch, n) && Underway(m, e, f, vecs) && TotalLen(vecs) < howmuch
    ensures var k := f + |vecs|; k < e <= |m.spine| && m.At(k) == m.spine[k] && m.spine[k].Ok() && m.spine[k].next == m.At(k + 1)
  {
    hide Real, Flat, Chain.Data, TotalSpace, TotalLen, Reserved;
    RealAt(m, f + |vecs|);
  }

  /** ... and its vector is its whole space. */
  lemma {:induction false} NextVec(m: Layout, e: nat, f: nat, vecs: seq<Vec>, v: Vec)
    requires Real(m) && Underway(m, e, f, vecs) && f + |vecs| < e && m.spine[f + |vecs|].Ok()
    requires v.Fits(m.spine[f + |vecs|]) && v.len == m.spine[f + |vecs|].SpaceLen()
    ensures Underway(m, e, f, vecs + [v]) && TotalLen(vecs + [v]) == TotalLen(vecs) + v.len
  {
    hide Real, Flat, Chain.Data, TotalSpace, TotalLen, Reserved;
    SpaceStep(m, m.lwd, f + |vecs|);
    OneMoreVec(m, f, vecs, v);
  }

  /** No more vectors may be used: there is enough. */
  lemma {:induction false} EnoughVecs(m: Layout, e: nat, howmuch: nat, n: nat, f: nat, vecs: seq<Vec>)
    requires Real(m) && Offers(m, e, howmuch, n) && Underway(m, e, f, vecs) && e - f <= n && |vecs| <= n
    requires |vecs| == n || TotalLen(vecs) >= howmuch
    ensures Reserved(m, f, vecs) && TotalLen(vecs) >= howmuch
  {
    hide Real, Flat, Chain.Data, TotalSpace, TotalLen, Reserved;
  }

  /** _evbuffer_read_setup_vecs, taking each chain's whole space. */
  method SetupVecs(buf: EvBuffer, howmuch: nat, nVecs: nat, ghost e: nat) returns (vecs: seq<Vec>)
    requires buf.Valid() && Offers(buf.m, e, howmuch, nVecs)
    ensures forall c | c in buf.m.spine :: c.Ok()
    ensures Reserved(buf.m, SpaceIndex(buf.m), vecs) && |vecs| <= nVecs && TotalLen(vecs) >= howmuch
  {
    hide Real, Flat, Chain.Data, TotalSpace, Reserved, TotalLen, Underway, Offers, SpaceIndex, Layout.At;
    hide Layout.TailEmpty;
    ghost var m := buf.m;
    NoVecsYet(m, e, howmuch, nVecs);
    var chain; ghost var f;
    chain, f := FirstWithSpace(buf);
    var soFar := 0;
    vecs := [];
    while |vecs| < nVecs && soFar < howmuch
      invariant Underway(m, e, f, vecs) && chain == m.At(f + |vecs|) && soFar == TotalLen(vecs) && |vecs| <= nVecs
      decreases nVecs - |vecs|
    {
      NextChain(m, e, howmuch, nVecs, f, vecs);
      var v := Vec(chain, chain.misalign + chain.off, chain.SpaceLen());
      NextVec(m, e, f, vecs, v);
      vecs := vecs + [v];
      soFar := soFar + v.len;
      chain := chain.next;
    }
    EnoughVecs(m, e, howmuch, nVecs, f, vecs);
  }

  /**
   evbuffer_reserve_space.  The vectors of a successful call offer at least
   `size` bytes: the space of one chain if one vector is asked for, else that
   of at most `nVecs` consecutive chains.
  */
  method ReserveSpace(buf: EvBuffer, size: nat, nVecs: int) returns (n: int, vecs: seq<Vec>, ghost f: nat)
    requires buf.Valid()
    modifies buf`first, buf`last, buf`lastWithDataP, buf`totalLen, buf`m, buf.m.repr
    ensures buf.Valid() && buf.Content() == old(buf.Content()) && fresh(buf.m.repr - old(buf.m.repr))
    ensures n == -1 || n == |vecs|
    ensures buf.m.lwd == old(buf.m.lwd)
    ensures n == -1 ==> buf.freezeEnd || nVecs < 1 || (nVecs == 1 && size + buf.totalLen >= CHAIN_MAX)
    ensures buf.freezeEnd || nVecs < 1 ==> n == -1 && buf.m == old(buf.m)
    ensures n != -1 ==> n <= nVecs && Reserved(buf.m, f, vecs) && TotalLen(vecs) >= size
    ensures n != -1 ==> (forall c | c in buf.m.spine :: c.Ok()) && buf.m.lwd <= f <= buf.m.lwd + 1
    ensures n != -1 && nVecs > 1 ==> f == SpaceIndex(buf.m)
    ensures !buf.freezeEnd && nVecs == 1 && old(UsesNext(buf.m, size)) ==>
      n == 1 && buf.m == old(buf.m) && f == SpaceIndex(buf.m) + 1 && UsesNext(buf.m, size)
    ensures !buf.freezeEnd && nVecs > 1 && old(NeedsMore(buf.m, size, nVecs)) ==>
      && OneMore(old(buf.m), buf.m, size - old(TotalSpace(buf.m.spine[buf.m.lwd..|buf.m.spine|]))) && fresh(buf.last)
      && buf.last == buf.m.spine[|old(buf.m.spine)|]
      && forall c | c in old(buf.m.spine) :: c.misalign == old(c.misalign) && c.off == old(c.off)
  {
    hide Real, Flat, Chain.Data, TotalSpace, NeedsMore, OneMore;
    vecs, f := [], 0;
    if buf.freezeEnd || nVecs < 1 {
      return -1, vecs, f;
    }
    if nVecs == 1 {
      var chain;
      chain, f := ExpandSingleChain(buf, size);
      if chain == null {
        return -1, vecs, f;
      }
      RealLen(buf.m);
      var v := Vec(chain, chain.misalign + chain.off, chain.SpaceLen());
      vecs := [v];
      assert vecs[..0] == [];
      n := 1;
    } else {
      ghost var e := ExpandFast(buf, size, nVecs);
      vecs := SetupVecs(buf, size, nVecs, e);
      RealLen(buf.m);
      f := SpaceIndex(buf.m);
      n := |vecs|;
    }
  }

  /** Chain `k`, behind which all chains are empty, takes over the bytes written at its end. */
  method Extend(buf: EvBuffer, chain: Chain, v: Vec, ghost k: nat)
    requires buf.Shape() && k < |buf.m.spine| == |buf.m.segs| && chain == buf.m.spine[k] && chain.Ok() && v.Fits(chain)
    requires forall i | k < i < |buf.m.segs| :: buf.m.segs[i] == []
    modifies buf`m, buf`totalLen, chain`off
    ensures buf.Shape() && buf.m == old(buf.m).Set(k, old(buf.m.segs[k]) + v.Bytes())
    ensures buf.Content() == old(buf.Content()) + v.Bytes()
  {
    hide Real, Flat;
    ghost var m := buf.m;
    RealAt(m, k);
    FlatSet(m.segs, k, m.segs[k] + v.Bytes());
    FlatEmpty(m.segs[k + 1..]);
    ghost var d := chain.Data();
    label before:
    chain.off := chain.off + v.len;
    buf.totalLen, buf.m := buf.totalLen + v.len, m.Set(k, m.segs[k] + v.Bytes());
    assert chain.Data() == d + v.Bytes();
    ChainChanged@before(m, k, d + v.Bytes());
  }

  lemma ExtendOrder(m: Layout, k: nat, d: seq<byte>)
    requires m.TailEmpty() && m.lwd <= k < |m.segs| == |m.spine|
    ensures forall i | k < i < |m.segs| :: m.segs[i] == []
    ensures var r := m.Set(k, m.segs[k] + d); if d == [] then r == m else r.(lwd := k).TailEmpty()
  {
    if d == [] {
      assert m.segs[k] + d == m.segs[k];
    }
  }

  /** One vector of the second pass: the chain grows, and if it got bytes it is the last with data. */
  method CommitOne(buf: EvBuffer, owner: Chain?, chain: Chain, v: Vec, ghost k: nat)
    requires buf.Valid() && buf.m.lwd <= k < |buf.m.spine| && chain == buf.m.spine[k] && owner == buf.m.Owner(k)
    requires chain.Ok() && v.Fits(chain)
    modifies buf`m, buf`totalLen, buf`lastWithDataP, chain`off
    ensures buf.Valid() && buf.m.spine == old(buf.m.spine) && buf.m.repr == old(buf.m.repr)
    ensures buf.m.lwd == if v.len != 0 then k else old(buf.m.lwd)
    ensures buf.Content() == old(buf.Content()) + v.Bytes()
  {
    hide Real, Flat, Chain.Data, Vec.Bytes, Layout.TailEmpty;
    RealLen(buf.m);
    ExtendOrder(buf.m, k, v.Bytes());
    Extend(buf, chain, v, k);
    ghost var was := buf.m;
    if v.len != 0 {
      buf.lastWithDataP, buf.m := owner, was.(lwd := k);
      RealLwd(was, k);
    }
  }

  /** First pass of evbuffer_commit_space: do the vectors start where the chains' space starts? */
  method CheckVecs(buf: EvBuffer, vecs: seq<Vec>, start: Chain?, ghost f: nat) returns (ok: bool)
    requires buf.Valid() && f <= |buf.m.spine| && start == buf.m.At(f)
    ensures ok == Reserved(buf.m, f, vecs)
  {
    hide Real, Flat, Chain.Data;
    var chain, i := start, 0;
    RealLen(buf.m);
    while i < |vecs|
      invariant i <= |vecs| && f + i <= |buf.m.spine| && chain == buf.m.At(f + i)
      invariant forall j | 0 <= j < i :: SlotAt(buf.m, f, vecs, j)
    {
      if chain == null {
        return false;
      }
      RealAt(buf.m, f + i);
      if !(vecs[i].chain == chain && vecs[i].pos == chain.misalign + chain.off) || vecs[i].len > chain.SpaceLen() {
        assert f + |vecs| <= |buf.m.spine| ==> !SlotAt(buf.m, f, vecs, i);
        return false;
      }
      chain, i := chain.next, i + 1;
    }
    ok := true;
  }

  lemma ReservedInBounds(m: Layout, f: nat, vecs: seq<Vec>)
    requires Reserved(m, f, vecs)
    ensures forall v | v in vecs :: v.InBounds()
  {
    forall i | 0 <= i < |vecs|
      ensures vecs[i].InBounds()
    {
      assert SlotAt(m, f, vecs, i);
    }
  }

  /** Second pass: adjust all the chains. */
  method CommitVecs(buf: EvBuffer, vecs: seq<Vec>, firstOwner: Chain?, start: Chain?, ghost f: nat)
    requires buf.Valid() && buf.m.lwd <= f <= |buf.m.spine| && start == buf.m.At(f) && firstOwner == buf.m.Owner(f)
    requires Reserved(buf.m, f, vecs) && forall v | v in vecs :: v.InBounds()
    modifies buf`m, buf`totalLen, buf`lastWithDataP, buf.m.spine`off
    ensures buf.Valid() && buf.m.spine == old(buf.m.spine) && buf.m.repr == old(buf.m.repr)
    ensures buf.Content() == old(buf.Content()) + old(Written(vecs))
  {
    hide Real, Flat, Chain.Data, Written, Vec.Bytes, Layout.TailEmpty, Layout.Packed;
    var owner, chain, i := firstOwner, start, 0;
    ghost var spine := buf.m.spine;
    WrittenSteps(vecs);
    while i < |vecs|
      invariant buf.Valid() && buf.m.spine == spine && buf.m.repr == old(buf.m.repr)
      invariant i <= |vecs| && f + |vecs| <= |spine| && buf.m.lwd <= f + i
      invariant chain == buf.m.At(f + i) && owner == buf.m.Owner(f + i)
      invariant forall j | i <= j < |vecs| :: SlotAt(buf.m, f, vecs, j)
      invariant buf.Content() == old(buf.Content()) + old(Written(vecs[..i]))
    {
      ghost var k, m := f + i, buf.m;
      RealAt(m, k);
      Others(m, k);
      assert SlotAt(m, f, vecs, i);
      label here:
      CommitOne(buf, owner, chain, vecs[i], k);
      forall j | i + 1 <= j < |vecs|
        ensures SlotAt(buf.m, f, vecs, j)
      {
        assert old@here(SlotAt(m, f, vecs, j));
      }
      owner, chain, i := chain, chain.next, i + 1;
    }
    assert vecs[..|vecs|] == vecs;
  }

  lemma WrittenSteps(vecs: seq<Vec>)
    requires forall v | v in vecs :: v.InBounds()
    ensures Written(vecs[..0]) == [] && vecs[..|vecs|] == vecs
    ensures forall i | 0 <= i < |vecs| :: Written(vecs[..i + 1]) == Written(vecs[..i]) + vecs[i].Bytes()
  {
    forall i | 0 <= i < |vecs|
      ensures Written(vecs[..i + 1]) == Written(vecs[..i]) + vecs[i].Bytes()
    {
      assert vecs[..i + 1][..i] == vecs[..i];
    }
  }

  /** The single-vector shortcut of evbuffer_commit_space: the vector is the space of buf->last. */
  method CommitLast(buf: EvBuffer, v: Vec)
    requires buf.Valid() && buf.last != null && buf.last.Ok() && v.Fits(buf.last)
    modifies buf`m, buf`totalLen, buf`lastWithDataP, buf.last`off
    ensures buf.Shape() && buf.Content() == old(buf.Content()) + old(v.Bytes())
    ensures buf.m.spine == old(buf.m.spine) && buf.m.repr == old(buf.m.repr)
    ensures buf.Valid() <==> v.len == 0 || |buf.m.spine| <= old(buf.m.lwd) + 2
  {
    hide Real, Flat, Chain.Data, Vec.Bytes;
    ghost var n, was := |buf.m.spine|, buf.m;
    RealLen(buf.m);
    Extend(buf, buf.last, v, n - 1);
    if v.len != 0 {
      buf.AdvanceLastWithData();
    }
    RealLen(buf.m);
    if v.len != 0 && n > was.lwd + 2 {
      assert buf.m.segs[was.lwd + 1] == [];
      assert buf.m.segs[n - 1] != [];
    }
  }

  /** The vectors are what evbuffer_commit_space insists on. */
  ghost predicate Accepts(m: Layout, vecs: seq<Vec>)
    requires forall c | c in m.spine :: c.Ok()
    reads m.spine
  {
    || vecs == []
    || (if IsLast(m, vecs) then vecs[0].Fits(m.spine[|m.spine| - 1])
        else m.lwd < |m.spine| && Reserved(m, SpaceIndex(m), vecs))
  }

  ghost predicate IsLast(m: Layout, vecs: seq<Vec>)
    requires forall c | c in m.spine :: c.Ok()
    reads m.spine
  {
    && |vecs| == 1 && m.spine != []
    && var last := m.spine[|m.spine| - 1]; vecs[0].chain == last && vecs[0].pos == last.misalign + last.off
  }

  /**
   evbuffer_commit_space: append what was written into the vectors, or refuse
   and change nothing.  last_with_datap is right afterwards unless bytes were
   committed to buf->last alone while an empty chain lies in between.
  */
  method CommitSpace(buf: EvBuffer, vecs: seq<Vec>) returns (r: int)
    requires buf.Valid()
    modifies buf`m, buf`totalLen, buf`lastWithDataP, buf.m.spine`off
    ensures buf.Shape() && buf.m.spine == old(buf.m.spine) && buf.m.repr == old(buf.m.repr)
    ensures forall c | c in old(buf.m.spine) :: old(c.Ok())
    ensures r == if !buf.freezeEnd && old(Accepts(buf.m, vecs)) then 0 else -1
    ensures r == -1 ==> buf.m == old(buf.m)
    ensures r == 0 ==> (forall v | v in vecs :: v.InBounds()) && buf.Content() == old(buf.Content()) + old(Written(vecs))
    ensures buf.Valid() <==>
      !(r == 0 && old(IsLast(buf.m, vecs)) && vecs[0].len > 0 && |buf.m.spine| > old(buf.m.lwd) + 2)
  {
    hide Real, Flat, Chain.Data, Vec.Bytes;
    RealLen(buf.m);
    if buf.freezeEnd {
      return -1;
    }
    if |vecs| == 0 {
      return 0;
    }
    if |vecs| == 1 && buf.last != null && vecs[0].chain == buf.last && vecs[0].pos == buf.last.misalign + buf.last.off {
      if vecs[0].len > buf.last.SpaceLen() {
        return -1;
      }
      assert vecs[..0] == [];
      CommitLast(buf, vecs[0]);
      return 0;
    }
    var start := buf.LastWithData();
    if start == null {
      return -1;
    }
    var owner, ok := buf.lastWithDataP, false;
    ghost var f := SpaceIndex(buf.m);
    RealAt(buf.m, buf.m.lwd);
    if start.SpaceLen() == 0 {
      owner, start := start, start.next;
    }
    ok := CheckVecs(buf, vecs, start, f);
    if !ok {
      return -1;
    }
    ReservedInBounds(buf.m, f, vecs);
    CommitVecs(buf, vecs, owner, start, f);
    r := 0;
  }

  /** Using only some of the reserved vectors, or less of each, is fine. */
  lemma UseFewer(m: Layout, f: nat, vecs: seq<Vec>, used: seq<Vec>)
    requires Reserved(m, f, vecs) && |used| <= |vecs|
    requires forall i | 0 <= i < |used| ::
      used[i].chain == vecs[i].chain && used[i].pos == vecs[i].pos && used[i].len <= vecs[i].len
    ensures Reserved(m, f, used)
  {
    forall i | 0 <= i < |used|
      ensures SlotAt(m, f, used, i)
    {
      assert SlotAt(m, f, vecs, i);
    }
  }

  /**
   Vectors reserved at chain `f` are accepted exactly if `f` is where writing
   goes on, or it is one vector and its chain is the last.  Reserving one
   vector can yield neither (see ReservedThenRefused).
  */
  lemma WhenReservedIsAccepted(m: Layout, f: nat, vecs: seq<Vec>)
    requires Real(m) && Reserved(m, f, vecs) && vecs != [] && m.lwd < |m.spine|
    requires forall c | c in m.spine :: c.Ok()
    ensures Accepts(m, vecs) <==> f == SpaceIndex(m) || (|vecs| == 1 && f == |m.spine| - 1)
  {
    assert SlotAt(m, f, vecs, 0);
    if Reserved(m, SpaceIndex(m), vecs) {
      assert SlotAt(m, SpaceIndex(m), vecs, 0);
      assert m.spine[f] == m.spine[SpaceIndex(m)];
    }
  }

  /** A buffer whose only chain holds one byte and has space left. */
  method OneByte() returns (buf: EvBuffer)
    ensures fresh(buf) && fresh(buf.m.repr) && buf.Valid() && !buf.freezeEnd
    ensures |buf.m.spine| == 1 && buf.m.lwd == 0 && |buf.Content()| == 1
    ensures buf.m.spine[0] in buf.m.repr && buf.m.spine[0].Ok() && buf.m.spine[0].SpaceLen() > 0
      && buf.m.spine[0].buffer.Length < 3000
    ensures buf.m.spine[0].misalign == 0
  {
    hide Real, Flat, Chain.Data, Vec.Bytes;
    buf := new EvBuffer();
    RealLen(buf.m);
    var chain := new Chain(2);
    buf.ChainInsert(chain, 0);
    RealAt(buf.m, 0);
    Extend(buf, chain, Vec(chain, chain.misalign + chain.off, 1), 0);
    RealAt(buf.m, 0);
    FlatOne(buf.m.segs[0]);
    assert buf.m.segs == [buf.m.segs[0]];
  }

  /** A reservation of more than there is, which adds a chain. */
  method ReserveMore(buf: EvBuffer, k: nat, room: nat)
    requires buf.Valid() && !buf.freezeEnd && 1 <= k <= 2 && k == |buf.m.spine| && buf.m.lwd == 0
    requires forall c | c in buf.m.spine :: c.Ok() && c.misalign == 0
    requires buf.m.spine[0].SpaceLen() > 0
    modifies buf`first, buf`last, buf`lastWithDataP, buf`totalLen, buf`m, buf.m.repr
    ensures buf.Valid() && buf.Content() == old(buf.Content()) && fresh(buf.m.repr - old(buf.m.repr)) && buf.m.lwd == 0
    ensures OneMore(old(buf.m), buf.m, room + 1) && fresh(buf.last) && buf.last == buf.m.spine[k]
    ensures forall c | c in old(buf.m.spine) :: c.misalign == old(c.misalign) && c.off == old(c.off)
  {
    hide Real, Flat, Chain.Data, TotalSpace, Reserved, OneMore;
    SpaceUpTo(buf.m, k);
    ghost var total := TotalSpace(buf.m.spine[0..k]);
    var size := buf.first.SpaceLen() + room + 1;
    if k == 2 {
      size := size + buf.last.SpaceLen();
    }
    assert NeedsMore(buf.m, size, k + 1);
    var _, _, _ := ReserveSpace(buf, size, k + 1);
  }

  /** A buffer with data and two empty chains behind it, which two reservations have left. */
  method DataAndTwoEmptyChains(room: nat) returns (buf: EvBuffer)
    ensures fresh(buf) && fresh(buf.m.repr) && buf.Valid() && !buf.freezeEnd
    ensures |buf.Content()| == 1 && |buf.m.segs| == 3 && buf.m.segs[0] != []
    ensures buf.last == buf.m.spine[2] && buf.last.buffer.Length <= 3000
    ensures |buf.m.spine| == 3 && buf.m.lwd == 0 && forall c | c in buf.m.spine :: c.Ok() && c in buf.m.repr
    ensures buf.m.spine[0].SpaceLen() > 0 && buf.m.spine[1].SpaceLen() >= room && buf.m.spine[2].SpaceLen() > 0
    ensures buf.m.spine[0].buffer.Length < 3000
  {
    hide Real, Flat, Chain.Data, TotalSpace;
    buf := OneByte();
    ReserveMore(buf, 1, room);
    RealLen(buf.m);
    ReserveMore(buf, 2, 0);
    RealLen(buf.m);
    if buf.m.segs[0] == [] {
      FlatEmpty(buf.m.segs);
    }
  }

  /** The space of the first chain, or the first two. */
  lemma SpaceUpTo(m: Layout, k: nat)
    requires Real(m) && 1 <= k <= 2 && k == |m.spine| && m.lwd == 0
    ensures (forall c | c in m.spine :: c.Ok()) && SliceOk(m, 0, k)
    ensures TotalSpace(m.spine[0..k]) == m.spine[0].SpaceLen() + if k == 2 then m.spine[1].SpaceLen() else 0
  {
    hide Real, TotalSpace;
    RealLen(m);
    NoSpace(m, 0);
    SpaceStep(m, 0, 0);
    if k == 2 {
      SpaceStep(m, 0, 1);
    }
  }

  /** A buffer and a vector that evbuffer_commit_space accepts and with which it loses track. */
  method CommitToLose() returns (buf: EvBuffer, vecs: seq<Vec>)
    ensures fresh(buf) && fresh(buf.m.repr) && buf.Valid() && !buf.freezeEnd
    ensures (forall i | 0 <= i < |buf.m.spine| :: fresh(buf.m.spine[i])) && forall c | c in buf.m.spine :: c.Ok()
    ensures Accepts(buf.m, vecs) && IsLast(buf.m, vecs) && vecs[0].len > 0 && |buf.m.spine| > buf.m.lwd + 2
  {
    hide Real, Flat, Chain.Data;
    buf := DataAndTwoEmptyChains(0);
    var last := buf.last;
    vecs := [Vec(last, last.misalign + last.off, 1)];
    assert forall i | 0 <= i < |buf.m.spine| :: fresh(buf.m.spine[i]) by { RealLen(buf.m); }
  }

  /** Committing to the last chain past an empty one leaves last_with_datap behind. */
  method CommitLosesTrack() returns (buf: EvBuffer)
    ensures buf.Shape() && !buf.Valid()
  {
    hide Real, Flat, Chain.Data, Accepts, IsLast;
    var vecs;
    buf, vecs := CommitToLose();
    var r := CommitSpace(buf, vecs);
  }

  /** A buffer and a byte with which evbuffer_add loses track, though it meets no assertion. */
  method AddToLose() returns (buf: EvBuffer, data: seq<byte>)
    ensures fresh(buf) && fresh(buf.m.repr) && buf.Valid() && !buf.freezeEnd && |data| <= EV_SIZE_MAX - buf.totalLen
    ensures buf.MayAdd(data) && !buf.KeepsTrack(data) && |buf.Content()| == |data| == 1
  {
    hide Real, Flat, Chain.Data;
    buf := DataAndTwoEmptyChains(0);
    RealLen(buf.m);
    data := [1];
  }

  /** Adding a byte while two reserved chains are still empty leaves last_with_datap behind. */
  method AddLosesTrack() returns (buf: EvBuffer)
    ensures buf.Shape() && !buf.Valid() && |buf.Content()| == 2
  {
    hide Real, Flat, Chain.Data;
    var data;
    buf, data := AddToLose();
    var r := buf.Add(data);
  }

  /**
   ... and data that does not fit into the last of them meets the assertion in
   evbuffer_chain_insert, which then fails.
  */
  method AddMeetsAssertion() returns (buf: EvBuffer, data: seq<byte>)
    ensures buf.Valid() && !buf.freezeEnd && |data| <= EV_SIZE_MAX - buf.totalLen && buf.Splits(data)
      && !buf.MayAdd(data)
    ensures |buf.m.segs| == 3 && buf.last.SpaceLen() > 0
    ensures !exists v: nat :: buf.m.Set(2, buf.m.segs[2] + data[..buf.last.SpaceLen()]).VictimsFrom(v)
  {
    hide Real, Flat, Chain.Data;
    buf := DataAndTwoEmptyChains(0);
    RealLen(buf.m);
    var room := buf.last.buffer.Length;
    data := seq(room + 1, _ => 0);
    WhenAssertionHolds(buf.m, data[..buf.last.SpaceLen()]);
  }

  /**
   One vector that evbuffer_reserve_space hands out and evbuffer_commit_space refuses: its chain is
   neither the first with space nor the last.
  */
  method ReservedThenRefused() returns (buf: EvBuffer, v: Vec, ghost f: nat)
    ensures buf.Valid() && Reserved(buf.m, f, [v]) && f == buf.m.lwd + 1 && v.len > 0
    ensures forall c | c in buf.m.spine :: c.Ok()
    ensures UsesNext(buf.m, 3000) && f == SpaceIndex(buf.m) + 1 // what evbuffer_reserve_space of 3000 bytes in one vector gives
    ensures !Accepts(buf.m, [v])
  {
    hide Real, Flat, Chain.Data, Reserved;
    buf := DataAndTwoEmptyChains(3000);
    RealLen(buf.m);
    RealAt(buf.m, 0);
    assert UsesNext(buf.m, 3000);
    var n, vecs;
    n, vecs, f := ReserveSpace(buf, 3000, 1);
    v := vecs[0];
    assert vecs == [v];
    WhenReservedIsAccepted(buf.m, f, [v]);
  }
}
