/** Making room, handing it out and committing what was written into it (buffer.c). */
module BufferReserve {
  import opened Bytes
  import opened Chains
  import opened EvBuffers

  const MAX_TO_COPY_IN_EXPAND := 4096

  /** evbuffer_chain_insert_new: append an empty chain with room for `datlen` bytes. */
  method InsertNew(buf: EvBuffer, datlen: nat) returns (chain: Chain)
    requires buf.Valid()
    modifies buf`first, buf`last, buf`lastWithDataP, buf`totalLen, buf`m, buf.m.repr
    ensures buf.Valid() && buf.Content() == old(buf.Content()) && fresh(buf.m.repr - old(buf.m.repr))
    ensures buf.m.lwd == old(buf.m.lwd) && old(buf.m.InsertIndex()) < |buf.m.spine|
    ensures chain == buf.m.spine[old(buf.m.InsertIndex())] && chain.Ok() && chain.SpaceLen() >= datlen
  {
    hide Real, Flat, Chain.Data;
    RealLen(buf.m);
    chain := new Chain(datlen);
    TailVictims(buf.m);
    buf.ChainInsert(chain, buf.m.InsertIndex());
  }

  /** The first link from last_with_datap on whose chain has space (or that ends the list). */
  method FirstWithSpace(buf: EvBuffer) returns (cur: Chain?, ghost k: nat)
    requires buf.Shape()
    ensures k <= |buf.m.spine| && cur == buf.m.At(k)
    ensures k == SpaceIndex(buf.m)
  {
    hide Real, Flat, Chain.Data;
    RealLen(buf.m);
    cur, k := buf.LastWithData(), buf.m.lwd;
    if cur != null && cur.SpaceLen() == 0 {
      RealAt(buf.m, k);
      cur, k := cur.next, k + 1;
    }
  }

  /** The chain at which writing goes on: the last one with data if it has space, else the one behind it. */
  ghost function SpaceIndex(m: Layout): (k: nat)
    requires forall c | c in m.spine :: c.Ok()
    reads m.spine
  {
    if m.lwd < |m.spine| && m.spine[m.lwd].SpaceLen() == 0 then m.lwd + 1 else m.lwd
  }

  /** Realign chain `k` in place. */
  method AlignChain(buf: EvBuffer, chain: Chain, ghost k: nat)
    requires buf.Shape() && k < |buf.m.spine| && chain == buf.m.spine[k]
    modifies chain`misalign, chain.buffer
    ensures buf.Shape() && chain.Ok() && chain.misalign == 0
  {
    hide Real, Flat, Chain.Data;
    RealAt(buf.m, k);
    label before:
    chain.Align();
    ChainChanged@before(buf.m, k, buf.m.segs[k]);
    assert buf.m.Set(k, buf.m.segs[k]) == buf.m;
  }

  /** The chain with space is too small and not worth changing, and the next one will do. */
  ghost predicate UsesNext(m: Layout, datlen: nat)
    reads m.spine
  {
    && (forall c | c in m.spine :: c.Ok()) && SpaceIndex(m) + 1 < |m.spine|
    && var chain := m.spine[SpaceIndex(m)];
       && chain.SpaceLen() < datlen && chain.off != 0 && !ShouldRealign(chain.buffer.Length, chain.off, datlen)
       && (chain.SpaceLen() < chain.buffer.Length / 8 || chain.off > MAX_TO_COPY_IN_EXPAND ||
           (datlen < CHAIN_MAX && CHAIN_MAX - datlen >= chain.off))
       && m.spine[SpaceIndex(m) + 1].SpaceLen() >= datlen
  }

  /**
   evbuffer_expand_singlechain: one chain with room for `datlen` bytes, which is
   the last chain with data or the one behind it.  The branch that would resize
   a chain is entered only for more than EVBUFFER_CHAIN_MAX bytes, where
   evbuffer_chain_new refuses: the result is null and nothing has changed.
  */
  method ExpandSingleChain(buf: EvBuffer, datlen: nat) returns (result: Chain?, ghost k: nat)
    requires buf.Valid()
    modifies buf`first, buf`last, buf`lastWithDataP, buf`totalLen, buf`m, buf.m.repr
    ensures buf.Valid() && buf.Content() == old(buf.Content()) && fresh(buf.m.repr - old(buf.m.repr))
    ensures buf.m.lwd == old(buf.m.lwd)
    ensures result == null ==> buf.m == old(buf.m) && datlen + buf.totalLen >= CHAIN_MAX
    ensures result != null ==>
      && k < |buf.m.spine| && result == buf.m.spine[k] && buf.m.lwd <= k <= buf.m.lwd + 1
      && result.Ok() && result.SpaceLen() >= datlen
    ensures old(UsesNext(buf.m, datlen)) ==>
      result != null && k == old(SpaceIndex(buf.m)) + 1 && buf.m == old(buf.m) && UsesNext(buf.m, datlen)
  {
    hide Real, Flat, Chain.Data;
    RealLen(buf.m);
    var chain;
    chain, k := FirstWithSpace(buf);
    if chain == null || (chain.SpaceLen() < datlen && chain.off == 0) {
      k := buf.m.InsertIndex();
      result := InsertNew(buf, datlen);
      return;
    }
    if chain.SpaceLen() >= datlen {
      return chain, k;
    }
    if ShouldRealign(chain.buffer.Length, chain.off, datlen) {
      AlignChain(buf, chain, k);
      return chain, k;
    }
    if chain.SpaceLen() < chain.buffer.Length / 8 || chain.off > MAX_TO_COPY_IN_EXPAND ||
       (datlen < CHAIN_MAX && CHAIN_MAX - datlen >= chain.off) {
      RealAt(buf.m, k);
      if chain.next != null && chain.next.SpaceLen() >= datlen {
        return chain.next, k + 1;
      }
      k := buf.m.InsertIndex();
      result := InsertNew(buf, datlen);
    } else {
      RealAt(buf.m, k);
      FlatSet(buf.m.segs, k, []);
      return null, k;
    }
  }

  /** The free memory behind the data of the chains. */
  ghost function TotalSpace(s: seq<Chain>): (n: nat)
    requires forall c | c in s :: c.Ok()
    reads s`misalign, s`off
  {
    if s == [] then 0 else TotalSpace(s[..|s| - 1]) + s[|s| - 1].SpaceLen()
  }

  /** `chain->misalign = 0` for an empty chain; the space of the chains `lo..k` before it stays. */
  method ResetMisalign(buf: EvBuffer, chain: Chain, ghost lo: nat, ghost k: nat)
    requires buf.Shape() && lo <= k < |buf.m.spine| && chain == buf.m.spine[k] && chain.off == 0
    modifies chain`misalign
    ensures buf.Shape() && chain.Ok() && chain.misalign == 0
    ensures SliceOk(buf.m, lo, k) && TotalSpace(buf.m.spine[lo..k]) == old(TotalSpace(buf.m.spine[lo..k]))
  {
    hide Real, Flat, Chain.Data, TotalSpace;
    ghost var m := buf.m;
    RealAt(m, k);
    RealLen(m);
    Others(m, k);
    label before:
    chain.misalign := 0;
    ChainChanged@before(m, k, m.segs[k]);
    assert m.Set(k, m.segs[k]) == m;
    RealLen(m);
  }

  lemma Others(m: Layout, k: nat)
    requires Real(m) && k < |m.spine|
    ensures forall i | 0 <= i < |m.spine| && i != k :: m.spine[i] != m.spine[k]
  {
  }

  ghost predicate SliceOk(m: Layout, lo: nat, hi: nat)
    requires lo <= hi <= |m.spine|
    reads m.spine
  {
    forall c | c in m.spine[lo..hi] :: c.Ok()
  }

  /** One more chain's space. */
  lemma SpaceStep(m: Layout, lo: nat, k: nat)
    requires Real(m) && lo <= k < |m.spine|
    ensures SliceOk(m, lo, k + 1) && SliceOk(m, lo, k) && m.spine[k].Ok()
    ensures TotalSpace(m.spine[lo..k + 1]) == TotalSpace(m.spine[lo..k]) + m.spine[k].SpaceLen()
  {
    var s := m.spine[lo..k + 1];
    assert s[..|s| - 1] == m.spine[lo..k];
  }

  /** The empty chains have their space in one piece. */
  ghost predicate Aligned(m: Layout)
    reads m.spine
  {
    forall c | c in m.spine && c.off == 0 :: c.misalign == 0
  }

  /**
   The scan of _evbuffer_expand_fast: over the chains from the last one with
   data on, realigning the empty ones, until `datlen` bytes are found, `n`
   chains are used or the list ends.
  */
  method ScanSpace(buf: EvBuffer, datlen: nat, n: nat)
    returns (enough: bool, chain: Chain?, avail: nat, used: nat, ghost k: nat)
    requires buf.Valid() && buf.m.spine != [] && n >= 2
    modifies buf.m.spine`misalign
    ensures buf.Valid() && buf.m.lwd < k <= |buf.m.spine| && SliceOk(buf.m, buf.m.lwd, k)
    ensures avail == TotalSpace(buf.m.spine[buf.m.lwd..k]) && used <= n
    ensures buf.m.spine[buf.m.lwd].Ok()
    ensures used == k - if buf.m.spine[buf.m.lwd].SpaceLen() == 0 then buf.m.lwd + 1 else buf.m.lwd
    ensures enough == (avail >= datlen) && (!enough && used < n ==> k == |buf.m.spine|)
    ensures old(Aligned(buf.m)) ==> forall c | c in buf.m.spine :: c.misalign == old(c.misalign)
  {
    hide Real, Flat, Chain.Data, TotalSpace;
    ghost var m, lo := buf.m, buf.m.lwd;
    chain, avail, used, k, enough := buf.LastWithData(), 0, 0, lo, false;
    assert TotalSpace(m.spine[lo..lo]) == 0 by { NoSpace(m, lo); }
    while chain != null
      invariant buf.Valid() && buf.m == m && lo <= k <= |m.spine| && chain == m.At(k) && SliceOk(m, lo, k)
      invariant avail == TotalSpace(m.spine[lo..k]) && used < n && (k > lo ==> avail < datlen)
      invariant k == lo ==> used == 0
      invariant old(Aligned(m)) ==> forall c | c in m.spine :: c.misalign == old(c.misalign)
      invariant k > lo ==> m.spine[lo].Ok() && used == k - if m.spine[lo].SpaceLen() == 0 then lo + 1 else lo
      decreases |m.spine| - k
    {
      RealAt(m, k);
      if chain.off != 0 {
        var space := chain.SpaceLen();
        SpaceStep(m, lo, k);
        if space != 0 {
          avail, used := avail + space, used + 1;
        }
      } else {
        Others(m, k);
        ResetMisalign(buf, chain, lo, k);
        SpaceStep(m, lo, k);
        avail, used := avail + chain.buffer.Length, used + 1;
      }
      RealAt(m, k);
      RealAt(m, lo);
      chain, k := chain.next, k + 1;
      if avail >= datlen {
        enough := true;
        return;
      }
      if used == n {
        return;
      }
    }
  }

  lemma NoSpace(m: Layout, lo: nat)
    requires lo <= |m.spine|
    ensures SliceOk(m, lo, lo) && TotalSpace(m.spine[lo..lo]) == 0
  {
    assert m.spine[lo..lo] == [];
  }

  /** A new empty chain takes the place of the (empty) chains from `v` on. */
  method PutLast(buf: EvBuffer, owner: Chain?, size: nat, ghost v: nat) returns (tmp: Chain)
    requires buf.Valid() && v <= |buf.m.spine| && owner == buf.m.Owner(v)
    requires if v == 0 then buf.m.lwd == 0 else buf.m.lwd < v
    requires forall i | v <= i < |buf.m.segs| :: buf.m.segs[i] == []
    modifies buf`first, buf`last, buf`m, buf.m.spine`next
    ensures buf.Valid() && buf.Content() == old(buf.Content()) && fresh(buf.m.repr - old(buf.m.repr))
    ensures buf.m.lwd == old(buf.m.lwd) && buf.m.spine == old(buf.m.spine)[..v] + [tmp]
    ensures buf.m.segs == old(buf.m.segs)[..v] + [[]] && buf.last == tmp && tmp.off == 0 && tmp.misalign == 0
    ensures tmp.Ok() && tmp.SpaceLen() >= size && tmp.SpaceLen() > 0 && fresh(tmp)
    ensures tmp.buffer.Length <= 2 * (size + MIN_BUFFER_SIZE + CHAIN_SIZE)
  {
    hide Real, Flat, Chain.Data;
    ghost var m := buf.m;
    RealLen(m);
    tmp := new Chain(size);
    assert tmp.Data() == [];
    FlatReplaceTail(m.segs, v, []);
    label before:
    if owner == null {
      buf.first := tmp;
    } else {
      owner.next := tmp;
    }
    buf.last, buf.m := tmp, m.Replace(v, tmp, [], m.lwd);
    assert tmp.Data() == [];
    TailReplaced@before(m, v, tmp, [], m.lwd);
  }

  /** The number of chains in `lo..e` that can be written to, chain `lo` counting only if it has space. */
  ghost function Usable(m: Layout, e: nat): int
    requires m.lwd < |m.spine| && m.spine[m.lwd].Ok()
    reads m.spine
  {
    e - if m.spine[m.lwd].SpaceLen() == 0 then m.lwd + 1 else m.lwd
  }

  /** Chains from the last one with data up to `e` offer `datlen` bytes in at most `n` pieces. */
  ghost predicate Offers(m: Layout, e: nat, datlen: nat, n: nat)
    reads m.spine
  {
    && m.lwd < e <= |m.spine| && SliceOk(m, m.lwd, e) && m.spine[m.lwd].Ok()
    && TotalSpace(m.spine[m.lwd..e]) >= datlen && Usable(m, e) <= n
  }

  /** There is one chain more, empty and with this much space. */
  ghost predicate OneMore(was: Layout, m: Layout, space: int)
    reads m.spine
  {
    && was.spine < m.spine && |m.spine| == |was.spine| + 1 == |m.segs| && m.segs == was.segs + [[]]
    && var c := m.spine[|was.spine|];
       && c.Ok() && c.SpaceLen() >= space && c.SpaceLen() > 0 && c.off == 0 && c.misalign == 0
       && c.buffer.Length <= 2 * (space + MIN_BUFFER_SIZE + CHAIN_SIZE)
  }

  /** All chains that may be used are too small together, and there may be one more. */
  ghost predicate NeedsMore(m: Layout, datlen: nat, n: nat)
    reads m.spine
  {
    && Aligned(m) && m.lwd < |m.spine| && SliceOk(m, m.lwd, |m.spine|) && m.spine[m.lwd].Ok()
    && TotalSpace(m.spine[m.lwd..|m.spine|]) < datlen && Usable(m, |m.spine|) < n
  }

  /** The chains in front have no more space than all of them. */
  lemma {:induction false} LessSpace(m: Layout, lo: nat, k: nat, hi: nat)
    requires Real(m) && lo <= k <= hi <= |m.spine|
    ensures SliceOk(m, lo, k) && SliceOk(m, lo, hi) && TotalSpace(m.spine[lo..k]) <= TotalSpace(m.spine[lo..hi])
    decreases hi - k
  {
    hide Real, TotalSpace;
    RealLen(m);
    if k < hi {
      LessSpace(m, lo, k + 1, hi);
      SpaceStep(m, lo, k);
    }
  }

  twostate lemma SameSpace(s: seq<Chain>)
    requires forall c | c in s :: old(c.Ok()) && c.misalign == old(c.misalign) && c.off == old(c.off)
    ensures (forall c | c in s :: c.Ok()) && TotalSpace(s) == old(TotalSpace(s))
  {
    if s != [] {
      SameSpace(s[..|s| - 1]);
    }
  }

  /** A scan that has moved nothing has not found enough. */
  twostate lemma NeedsMoreStill(m: Layout, new datlen: nat, new n: nat, new e: nat)
    requires old(NeedsMore(m, datlen, n)) && Real(m) && m.lwd < e <= |m.spine|
    requires forall c | c in m.spine :: c.misalign == old(c.misalign) && c.off == old(c.off)
    ensures SliceOk(m, m.lwd, e) && SliceOk(m, m.lwd, |m.spine|) && m.spine[m.lwd].Ok() && Usable(m, |m.spine|) < n
    ensures TotalSpace(m.spine[m.lwd..e]) <= TotalSpace(m.spine[m.lwd..|m.spine|]) < datlen
    ensures TotalSpace(m.spine[m.lwd..|m.spine|]) == old(TotalSpace(m.spine[m.lwd..|m.spine|]))
  {
    hide Real, TotalSpace;
    SameSpace(m.spine[m.lwd..|m.spine|]);
    LessSpace(m, m.lwd, e, |m.spine|);
  }

  lemma NeedsAligned(m: Layout, datlen: nat, n: nat)
    ensures NeedsMore(m, datlen, n) ==> Aligned(m) && m.spine != []
  {
  }

  lemma OffersHere(m: Layout, e: nat, datlen: nat, n: nat)
    requires m.lwd < e <= |m.spine| && SliceOk(m, m.lwd, e) && m.spine[m.lwd].Ok()
    requires TotalSpace(m.spine[m.lwd..e]) >= datlen && Usable(m, e) <= n
    ensures Offers(m, e, datlen, n)
  {
  }

  /** Another chain behind all others. */
  method AppendRoom(buf: EvBuffer, datlen: nat, avail: nat, n: nat) returns (ghost e: nat)
    requires buf.Valid() && buf.m.lwd < |buf.m.spine| && SliceOk(buf.m, buf.m.lwd, |buf.m.spine|)
    requires avail == TotalSpace(buf.m.spine[buf.m.lwd..|buf.m.spine|]) && avail < datlen
    requires buf.m.spine[buf.m.lwd].Ok() && Usable(buf.m, |buf.m.spine|) < n
    modifies buf`first, buf`last, buf`m, buf.m.spine`next
    ensures buf.Valid() && buf.Content() == old(buf.Content()) && fresh(buf.m.repr - old(buf.m.repr))
    ensures buf.m.lwd == old(buf.m.lwd) && Offers(buf.m, e, datlen, n)
    ensures OneMore(old(buf.m), buf.m, datlen - avail) && buf.last == buf.m.spine[|old(buf.m.spine)|]
    ensures fresh(buf.last)
  {
    hide Real, Flat, Chain.Data, TotalSpace;
    ghost var m := buf.m;
    RealLen(m);
    var tmp := PutLast(buf, buf.last, datlen - avail, |m.spine|);
    e := |m.spine| + 1;
    assert buf.m.spine[m.lwd..|m.spine|] == m.spine[m.lwd..|m.spine|];
    SpaceStep(buf.m, m.lwd, |m.spine|);
  }

  /** One chain in place of all empty ones. */
  method ReplaceEmpty(buf: EvBuffer, datlen: nat, n: nat) returns (ghost e: nat)
    requires buf.Valid() && buf.m.lwd < |buf.m.spine| && n >= 2
    requires buf.m.spine[buf.m.lwd].Ok() && buf.m.spine[buf.m.lwd].SpaceLen() < datlen
    modifies buf`first, buf`last, buf`m, buf.m.repr
    ensures buf.Valid() && buf.Content() == old(buf.Content()) && fresh(buf.m.repr - old(buf.m.repr))
    ensures buf.m.lwd == old(buf.m.lwd) && Offers(buf.m, e, datlen, n)
  {
    hide Real, Flat, Chain.Data;
    ghost var lwd := buf.m.lwd;
    RealLen(buf.m);
    RealAt(buf.m, lwd);
    var chain := buf.LastWithData();
    if chain.off == 0 {
      var tmp := PutLast(buf, null, datlen, 0);
      e := 1;
    } else {
      var avail := chain.SpaceLen();
      var tmp := PutLast(buf, chain, datlen - avail, lwd + 1);
      e := lwd + 2;
      SpaceStep(buf.m, lwd, lwd + 1);
    }
    NoSpace(buf.m, lwd);
    SpaceStep(buf.m, lwd, lwd);
  }

  /** The first chain of an empty list. */
  method FirstRoom(buf: EvBuffer, datlen: nat, n: nat) returns (ghost e: nat)
    requires buf.Valid() && buf.last == null && n >= 2
    modifies buf`first, buf`last, buf`lastWithDataP, buf`totalLen, buf`m, buf.m.repr
    ensures buf.Valid() && buf.Content() == old(buf.Content()) && fresh(buf.m.repr - old(buf.m.repr))
    ensures buf.m.lwd == old(buf.m.lwd) && Offers(buf.m, e, datlen, n)
  {
    hide Real, Flat, Chain.Data;
    RealLen(buf.m);
    var chain := InsertNew(buf, datlen);
    e := 1;
    NoSpace(buf.m, 0);
    SpaceStep(buf.m, 0, 0);
  }

  /** _evbuffer_expand_fast: room for `datlen` bytes in at most `n` chains, without copying data. */
  method ExpandFast(buf: EvBuffer, datlen: nat, n: nat) returns (ghost e: nat)
    requires buf.Valid() && n >= 2
    modifies buf`first, buf`last, buf`lastWithDataP, buf`totalLen, buf`m, buf.m.repr
    ensures buf.Valid() && buf.Content() == old(buf.Content()) && fresh(buf.m.repr - old(buf.m.repr))
    ensures buf.m.lwd == old(buf.m.lwd) && Offers(buf.m, e, datlen, n)
    ensures old(NeedsMore(buf.m, datlen, n)) ==>
      && OneMore(old(buf.m), buf.m, datlen - old(TotalSpace(buf.m.spine[buf.m.lwd..|buf.m.spine|]))) && fresh(buf.last)
      && buf.last == buf.m.spine[|old(buf.m.spine)|]
      && forall c | c in old(buf.m.spine) :: c.misalign == old(c.misalign) && c.off == old(c.off)
  {
    hide Real, Flat, Chain.Data, TotalSpace, NeedsMore, Aligned, Offers, OneMore;
    RealLen(buf.m);
    ghost var needs := NeedsMore(buf.m, datlen, n);
    NeedsAligned(buf.m, datlen, n);
    label start:
    if buf.last == null {
      e := FirstRoom(buf, datlen, n);
      return;
    }
    var enough, chain, avail, used;
    enough, chain, avail, used, e := ScanSpace(buf, datlen, n);
    RealLen(buf.m);
    if needs {
      NeedsMoreStill@start(buf.m, datlen, n, e);
    }
    if enough {
      OffersHere(buf.m, e, datlen, n);
      return;
    }
    RealLen(buf.m);
    if used < n {
      e := AppendRoom(buf, datlen, avail, n);
    } else {
      FirstSpace(buf.m, e);
      e := ReplaceEmpty(buf, datlen, n);
    }
  }

  lemma FirstSpace(m: Layout, e: nat)
    requires Real(m) && m.lwd < e <= |m.spine| && SliceOk(m, m.lwd, e)
    ensures m.spine[m.lwd].Ok() && m.spine[m.lwd].SpaceLen() <= TotalSpace(m.spine[m.lwd..e])
  {
    SpaceStep(m, m.lwd, e - 1);
    if e > m.lwd + 1 {
      FirstSpace(m, e - 1);
    }
  }
}
