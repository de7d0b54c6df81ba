/** Searching an evbuffer and splitting it into lines (buffer.c). */
module BufferSearch {
  import opened Options
  import opened Bytes
  import opened Chains
  import opened EvBuffers

  const CR: byte := 13
  const LF: byte := 10
  const CHUNK_SZ := 128
  const EV_SSIZE_MAX := 0x7fff_ffff_ffff_ffff

  // ---------- the flat view: what the searches mean on a byte sequence ----------

  /** `what` occurs in `s` at `i`. */
  predicate OccursAt(s: seq<byte>, what: seq<byte>, i: nat)
  {
    i + |what| <= |s| && s[i..i + |what|] == what
  }

  /** No byte of `set` occurs in `s` from `lo` up to `hi`. */
  predicate Absent(s: seq<byte>, chars: set<byte>, lo: nat, hi: nat)
    requires hi <= |s|
  {
    forall i | lo <= i < hi :: s[i] !in chars
  }

  /** The number of bytes of `chars` in a row that `s` has at `i`. */
  function Span(s: seq<byte>, chars: set<byte>, i: nat): (n: nat)
    requires i <= |s|
    ensures i + n <= |s| && (forall j | i <= j < i + n :: s[j] in chars)
    ensures i + n == |s| || s[i + n] !in chars
    decreases |s| - i
  {
    if i < |s| && s[i] in chars then 1 + Span(s, chars, i + 1) else 0
  }

  // ---------- positions ----------

  /** struct evbuffer_ptr */
  datatype Ptr = Ptr(pos: int, chain: Chain?, inChain: nat)

  /** `p` is a position in chain `k` (or the end of the list). */
  ghost predicate Points(m: Layout, p: Ptr, k: nat)
  {
    && k <= |m.spine| == |m.segs| && p.chain == m.At(k)
    && (if k < |m.segs| then p.inChain <= |m.segs[k]| else p.inChain == 0)
    && p.pos == |Flat(m.segs[..k])| + p.inChain
  }

  /** The byte at `i` in segment `k` of the stream. */
  lemma InSegment(a: seq<seq<byte>>, k: nat)
    requires k < |a|
    ensures var n := |Flat(a[..k])|; n + |a[k]| <= |Flat(a)| && Flat(a)[n..n + |a[k]|] == a[k]
    ensures |Flat(a[..k + 1])| == |Flat(a[..k])| + |a[k]|
  {
    FlatSplit(a, k);
    FlatAt(a, k);
  }

  lemma AtStart(m: Layout)
    requires |m.spine| == |m.segs|
    ensures Points(m, Ptr(0, m.At(0), 0), 0)
  {
    FlatEmpty(m.segs[..0]);
  }

  // ---------- search inside one chain ----------

  /** memchr */
  function Memchr(s: seq<byte>, c: byte, from: nat): (i: int)
    requires from <= |s|
    ensures i == -1 || from <= i < |s|
    ensures i == -1 ==> Absent(s, {c}, from, |s|)
    ensures i != -1 ==> s[i] == c && Absent(s, {c}, from, i)
    decreases |s| - from
  {
    if from == |s| then -1 else if s[from] == c then from else Memchr(s, c, from + 1)
  }

  /** find_eol_char: the first CR or LF, looked for in chunks of 128 bytes. */
  method FindEolChar(s: seq<byte>, from: nat) returns (i: int)
    requires from <= |s|
    ensures i == -1 || from <= i < |s|
    ensures i == -1 ==> Absent(s, {CR, LF}, from, |s|)
    ensures i != -1 ==> s[i] in {CR, LF} && Absent(s, {CR, LF}, from, i)
  {
    var at := from;
    while at < |s|
      invariant from <= at && Absent(s, {CR, LF}, from, if at < |s| then at else |s|)
    {
      var chunk := s[at..if at + CHUNK_SZ < |s| then at + CHUNK_SZ else |s|];
      var cr, lf := Memchr(chunk, CR, 0), Memchr(chunk, LF, 0);
      assert forall j | 0 <= j < |chunk| :: s[at + j] == chunk[j];
      if cr != -1 {
        i := at + if lf != -1 && lf < cr then lf else cr;
        assert forall j | at <= j < i :: s[j] == chunk[j - at];
        return;
      }
      if lf != -1 {
        i := at + lf;
        assert forall j | at <= j < i :: s[j] == chunk[j - at];
        return;
      }
      assert forall j | at <= j < at + |chunk| :: s[j] == chunk[j - at];
      at := at + CHUNK_SZ;
    }
    i := -1;
  }

  // ---------- walks over the chains ----------

  /** The walk passes over segment `k` from `i` to its end. */
  lemma PassOver(m: Layout, p: Ptr, k: nat)
    requires Points(m, p, k) && k < |m.segs|
    ensures Points(m, Ptr(p.pos + |m.segs[k]| - p.inChain, m.At(k + 1), 0), k + 1)
    ensures p.pos + |m.segs[k]| - p.inChain <= |Flat(m.segs)|
  {
    InSegment(m.segs, k);
  }

  /** What a chain search finds is what the stream holds there. */
  lemma SegmentBytes(m: Layout, p: Ptr, k: nat)
    requires Points(m, p, k) && k < |m.segs|
    ensures forall j | p.inChain <= j < |m.segs[k]| ::
      0 <= p.pos + j - p.inChain < |Flat(m.segs)| && Flat(m.segs)[p.pos + j - p.inChain] == m.segs[k][j]
    ensures forall j | p.pos <= j < p.pos + |m.segs[k]| - p.inChain ::
      0 <= j < |Flat(m.segs)| && Flat(m.segs)[j] == m.segs[k][j - p.pos + p.inChain]
  {
    InSegment(m.segs, k);
    var n, c := |Flat(m.segs[..k])|, Flat(m.segs);
    assert forall j | 0 <= j < |m.segs[k]| :: c[n..n + |m.segs[k]|][j] == m.segs[k][j];
  }

  /** The end of the list is the end of the stream. */
  lemma AtEnd(m: Layout, p: Ptr, k: nat)
    requires Points(m, p, k) && k == |m.segs|
    ensures p.pos == |Flat(m.segs)|
  {
    assert m.segs[..k] == m.segs;
  }

  /** evbuffer_find_eol_char (`eol`) and evbuffer_strchr (for `chr`). */
  method FindChar(buf: EvBuffer, it: Ptr, eol: bool, chr: byte, ghost k0: nat) returns (r: Ptr, ghost k: nat)
    requires buf.Shape() && Points(buf.m, it, k0)
    ensures r.pos == -1 || it.pos <= r.pos < |buf.Content()|
    ensures it.pos <= |buf.Content()|
    ensures var chars := if eol then {CR, LF} else {chr};
            if r.pos == -1 then Absent(buf.Content(), chars, it.pos, |buf.Content()|)
            else buf.Content()[r.pos] in chars && Absent(buf.Content(), chars, it.pos, r.pos)
    ensures r.pos != -1 ==> Points(buf.m, r, k) && k < |buf.m.segs| && r.inChain < |buf.m.segs[k]|
  {
    hide Real, Flat, Chain.Data;
    ghost var m, c := buf.m, buf.Content();
    ghost var chars := if eol then {CR, LF} else {chr};
    var chain, i, pos := it.chain, it.inChain, it.pos;
    k := k0;
    RealLen(m);
    if k == |m.segs| {
      AtEnd(m, it, k);
    } else {
      PassOver(m, it, k);
    }
    while chain != null
      invariant Points(m, Ptr(pos, chain, i), k) && it.pos <= pos <= |c| && Absent(c, chars, it.pos, pos)
      decreases |m.segs| - k
    {
      RealAt(m, k);
      SegmentBytes(m, Ptr(pos, chain, i), k);
      PassOver(m, Ptr(pos, chain, i), k);
      var data := chain.Data();
      var at;
      if eol {
        at := FindEolChar(data, i);
      } else {
        at := Memchr(data, chr, i);
      }
      if at != -1 {
        r := Ptr(pos + at - i, chain, at);
        return;
      }
      pos, i, chain, k := pos + chain.off - i, 0, chain.next, k + 1;
    }
    AtEnd(m, Ptr(pos, chain, i), k);
    r := Ptr(-1, chain, i);
  }

  /** A run of `n` bytes of `chars` that is not followed by another is what Span measures. */
  lemma {:induction false} SpanIs(s: seq<byte>, chars: set<byte>, i: nat, n: nat)
    requires i + n <= |s| && (forall j | i <= j < i + n :: s[j] in chars) && (i + n == |s| || s[i + n] !in chars)
    ensures n == Span(s, chars, i)
    decreases n
  {
    if n > 0 {
      SpanIs(s, chars, i + 1, n - 1);
    }
  }

  /** The inner loop of evbuffer_strspn. */
  function SpanInChain(d: seq<byte>, chars: set<byte>, i: nat): (j: nat)
    requires i <= |d|
    ensures i <= j <= |d| && (j < |d| ==> d[j] !in chars) && forall k | i <= k < j :: d[k] in chars
    decreases |d| - i
  {
    if i < |d| && d[i] in chars then SpanInChain(d, chars, i + 1) else i
  }

  /** A span in segment `k`, seen on the stream. */
  lemma ChainSpan(m: Layout, p: Ptr, k: nat, chars: set<byte>, stop: nat)
    requires Points(m, p, k) && k < |m.segs| && stop == SpanInChain(m.segs[k], chars, p.inChain)
    ensures var c, to := Flat(m.segs), p.pos + stop - p.inChain;
            && 0 <= p.pos <= to <= |c| && (forall j | p.pos <= j < to :: c[j] in chars)
            && (stop < |m.segs[k]| ==> to < |c| && c[to] !in chars)
  {
    hide Flat, SpanInChain;
    SegmentBytes(m, p, k);
    PassOver(m, p, k);
    var c, to := Flat(m.segs), p.pos + stop - p.inChain;
    assert forall j | p.pos <= j < to :: c[j] == m.segs[k][j - p.pos + p.inChain];
    assert stop < |m.segs[k]| ==> c[to] == m.segs[k][stop];
  }

  /** evbuffer_strspn: how many bytes of `chars` follow `it`; -1 behind the last chain. */
  method Strspn(buf: EvBuffer, it: Ptr, chars: set<byte>, ghost k0: nat) returns (count: int)
    requires buf.Shape() && Points(buf.m, it, k0)
    ensures 0 <= it.pos <= |buf.Content()|
    ensures count == if it.chain == null then -1 else Span(buf.Content(), chars, it.pos)
  {
    hide Real, Flat, Chain.Data, SpanInChain, Span;
    ghost var m, c := buf.m, buf.Content();
    RealLen(m);
    if it.chain == null {
      AtEnd(m, it, k0);
      return -1;
    }
    var chain, i := it.chain, it.inChain;
    ghost var k := k0;
    PassOver(m, it, k);
    count := 0;
    while true
      invariant k < |m.segs| && Points(m, Ptr(it.pos + count, chain, i), k)
      invariant 0 <= it.pos <= it.pos + count <= |c| && forall j | it.pos <= j < it.pos + count :: c[j] in chars
      decreases |m.segs| - k
    {
      RealAt(m, k);
      PassOver(m, Ptr(it.pos + count, chain, i), k);
      var stop := SpanInChain(chain.Data(), chars, i);
      ChainSpan(m, Ptr(it.pos + count, chain, i), k, chars, stop);
      count := count + stop - i;
      if stop < chain.off {
        break;
      }
      i := 0;
      if chain.next == null {
        AtEnd(m, Ptr(it.pos + count, null, 0), k + 1);
        break;
      }
      chain, k := chain.next, k + 1;
    }
    SpanIs(c, chars, it.pos, count);
  }

  // ---------- positions: set, advance, compare ----------

  datatype How = PtrSet | PtrAdd

  /** evbuffer_ptr_set: move to offset `position`, or `position` bytes on.  The end of the data is not a position. */
  method SetPtr(buf: EvBuffer, p: Ptr, position: nat, how: How, ghost k0: nat) returns (r: int, q: Ptr, ghost k: nat)
    requires buf.Shape() && buf.totalLen <= EV_SIZE_MAX
    requires how.PtrAdd? && p.pos >= 0 ==> Points(buf.m, p, k0)
    ensures var target := if how.PtrSet? then position else p.pos + position;
            r == if (how.PtrAdd? && p.pos < 0) || target >= |buf.Content()| then -1 else 0
    ensures r == 0 ==> q.pos == (if how.PtrSet? then position else p.pos + position)
                       && Points(buf.m, q, k) && k < |buf.m.segs| && q.inChain < |buf.m.segs[k]|
    ensures r == -1 ==> q.pos == -1 || q == p
  {
    hide Real, Flat, Chain.Data;
    ghost var m, c := buf.m, buf.Content();
    RealLen(m);
    AtStart(m);
    var left: nat, at: nat := position, 0;
    var chain, pos := buf.first, position;
    k := 0;
    if how.PtrAdd? {
      if p.pos < 0 || EV_SIZE_MAX - position < p.pos {
        return -1, p, 0;
      }
      chain, pos, at, k := p.chain, p.pos + position, p.inChain, k0;
    }
    while chain != null && at + left >= chain.off
      invariant Points(m, Ptr(pos - left, chain, at), k)
      decreases |m.segs| - k
    {
      RealAt(m, k);
      PassOver(m, Ptr(pos - left, chain, at), k);
      left := left - (chain.off - at);
      chain, at, k := chain.next, 0, k + 1;
    }
    if chain != null {
      RealAt(m, k);
      InSegment(m.segs, k);
      r, q := 0, Ptr(pos, chain, at + left);
    } else {
      AtEnd(m, Ptr(pos - left, chain, at), k);
      r, q := -1, Ptr(-1, null, p.inChain);
    }
  }

  /** memcmp: the difference of the first bytes that differ, or 0. */
  function Memcmp(a: seq<byte>, b: seq<byte>): (r: int)
    requires |a| == |b|
    ensures r == 0 <==> a == b
  {
    if a == [] then 0 else if a[0] != b[0] then a[0] - b[0] else Memcmp(a[1..], b[1..])
  }

  /** One more piece of `mem` compared with a piece of a chain. */
  lemma Compared(c: seq<byte>, mem: seq<byte>, pos: nat, done: nat, d: seq<byte>, at: nat, n: nat)
    requires pos + |mem| <= |c| && done + n <= |mem| && at + n <= |d| && c[pos..pos + done] == mem[..done]
    requires forall j | pos + done <= j < pos + done + |d| - at && j < |c| :: c[j] == d[j - pos - done + at]
    ensures if d[at..at + n] == mem[done..done + n] then c[pos..pos + done + n] == mem[..done + n]
            else !OccursAt(c, mem, pos)
  {
    assert d[at..at + n] == c[pos + done..pos + done + n];
    assert c[pos..pos + done + n] == c[pos..pos + done] + c[pos + done..pos + done + n];
    assert mem[..done + n] == mem[..done] + mem[done..done + n];
    var whole := c[pos..pos + |mem|];
    assert forall j | done <= j < done + n :: whole[j] == c[pos + j];
    assert whole[done..done + n] == c[pos + done..pos + done + n];
  }

  /** The piece of `mem` that the rest of chain `k` can decide, and where to go on behind it. */
  lemma {:induction false} NextPiece(m: Layout, p: Ptr, k: nat, mem: seq<byte>, pos: nat, done: nat, n: nat)
    requires Points(m, p, k) && k < |m.segs| && p.pos == pos + done && pos + |mem| <= |Flat(m.segs)| && done < |mem|
    requires Flat(m.segs)[pos..pos + done] == mem[..done]
    requires n == if |mem| - done + p.inChain > |m.segs[k]| then |m.segs[k]| - p.inChain else |mem| - done
    ensures done + n <= |mem| && p.inChain + n <= |m.segs[k]|
    ensures if m.segs[k][p.inChain..p.inChain + n] == mem[done..done + n] then Flat(m.segs)[pos..pos + done + n] == mem[..done + n]
            else !OccursAt(Flat(m.segs), mem, pos)
    ensures done + n < |mem| ==> Points(m, Ptr(pos + done + n, m.At(k + 1), 0), k + 1)
  {
    hide Flat, OccursAt;
    SegmentBytes(m, p, k);
    PassOver(m, p, k);
    Compared(Flat(m.segs), mem, pos, done, m.segs[k], p.inChain, n);
  }

  /** evbuffer_ptr_memcmp: 0 exactly when `mem` occurs at the position. */
  method PtrMemcmp(buf: EvBuffer, p: Ptr, mem: seq<byte>, ghost k0: nat) returns (r: int)
    requires buf.Shape() && buf.totalLen <= EV_SIZE_MAX && Points(buf.m, p, k0)
    ensures 0 <= p.pos && (r == 0 <==> OccursAt(buf.Content(), mem, p.pos))
  {
    hide Real, Flat, Chain.Data, Memcmp;
    ghost var m, c := buf.m, buf.Content();
    RealLen(m);
    if p.pos < 0 || EV_SIZE_MAX - |mem| < p.pos || p.pos + |mem| > buf.totalLen {
      return -1;
    }
    var position: nat, done: nat := p.inChain, 0;
    var chain := p.chain;
    ghost var k := k0;
    while done < |mem| && chain != null
      invariant done <= |mem| && (done < |mem| ==> Points(m, Ptr(p.pos + done, chain, position), k))
      invariant c[p.pos..p.pos + done] == mem[..done]
      decreases |m.segs| - k
    {
      RealAt(m, k);
      var n := if |mem| - done + position > chain.off then chain.off - position else |mem| - done;
      NextPiece(m, Ptr(p.pos + done, chain, position), k, mem, p.pos, done, n);
      r := Memcmp(chain.Data()[position..position + n], mem[done..done + n]);
      if r != 0 {
        return;
      }
      done, position, chain, k := done + n, 0, chain.next, k + 1;
    }
    if done < |mem| {
      AtEnd(m, Ptr(p.pos + done, chain, position), k);
    }
    r := 0;
  }

  // ---------- evbuffer_search_range ----------

  /** No occurrence of `what` starts in `s` from `lo` up to `hi`. */
  ghost predicate NoneBetween(s: seq<byte>, what: seq<byte>, lo: int, hi: int)
  {
    forall i: nat | lo <= i < hi :: !OccursAt(s, what, i)
  }

  /** Where the first byte of `what` is absent, `what` does not start. */
  lemma AbsentNone(s: seq<byte>, what: seq<byte>, lo: nat, hi: nat)
    requires what != [] && hi <= |s| && Absent(s, {what[0]}, lo, hi)
    ensures NoneBetween(s, what, lo, hi)
  {
    forall i: nat | lo <= i < hi
      ensures !OccursAt(s, what, i)
    {
      if i + |what| <= |s| {
        assert s[i..i + |what|][0] == s[i];
      }
    }
  }

  /** One memchr in segment `k`, seen on the stream. */
  lemma FirstByteScan(m: Layout, p: Ptr, k: nat, what: seq<byte>, at: int)
    requires Points(m, p, k) && k < |m.segs| && what != [] && at == Memchr(m.segs[k], what[0], p.inChain)
    ensures var c := Flat(m.segs); var hi := p.pos + (if at != -1 then at else |m.segs[k]|) - p.inChain;
            p.pos <= hi <= |c| && NoneBetween(c, what, p.pos, hi)
  {
    hide Flat, Memchr;
    SegmentBytes(m, p, k);
    PassOver(m, p, k);
    var c := Flat(m.segs);
    var hi := p.pos + (if at != -1 then at else |m.segs[k]|) - p.inChain;
    assert forall j | p.pos <= j < hi :: c[j] == m.segs[k][j - p.pos + p.inChain];
    AbsentNone(c, what, p.pos, hi);
  }

  /** A position in a later chain than `e` is not in front of `e`. */
  lemma LaterChain(m: Layout, p: Ptr, k: nat, e: Ptr, ke: nat)
    requires Points(m, p, k) && Points(m, e, ke) && ke < |m.segs| && ke < k
    ensures e.pos <= p.pos
  {
    InSegment(m.segs, ke);
    FlatSplit(m.segs[..k], ke + 1);
    assert m.segs[..k][..ke + 1] == m.segs[..ke + 1];
  }

  /** The start of the range of a search. */
  ghost function From(start: Maybe<Ptr>): int
  {
    if start.Some? then start.value.pos else 0
  }

  /** The end of the range of a search. */
  ghost function Limit(buf: EvBuffer, end: Maybe<Ptr>): int
    reads buf
  {
    if end.Some? then end.value.pos else |buf.Content()|
  }

  /** evbuffer_search_range: the first occurrence of `what` from `start` on, if it ends by `end`. */
  method SearchRange(buf: EvBuffer, what: seq<byte>, start: Maybe<Ptr>, end: Maybe<Ptr>, ghost k0: nat, ghost ke: nat)
    returns (r: Ptr, ghost k: nat)
    requires buf.Shape() && buf.totalLen <= EV_SIZE_MAX
    requires start.Some? ==> Points(buf.m, start.value, k0)
    requires end.Some? ==> Points(buf.m, end.value, ke)
    ensures |what| == 0 || |what| > EV_SSIZE_MAX ==> r.pos == From(start) >= 0
    ensures 0 < |what| <= EV_SSIZE_MAX && r.pos == -1 ==>
      NoneBetween(buf.Content(), what, From(start), Limit(buf, end) - |what| + 1)
    ensures 0 < |what| <= EV_SSIZE_MAX && r.pos != -1 ==>
      && 0 <= From(start) <= r.pos && OccursAt(buf.Content(), what, r.pos) && r.pos + |what| <= Limit(buf, end)
      && NoneBetween(buf.Content(), what, From(start), r.pos)
    ensures r.pos != -1 ==> Points(buf.m, r, k)
  {
    hide Real, Flat, Chain.Data, OccursAt, Memchr;
    ghost var m, c := buf.m, buf.Content();
    RealLen(m);
    AtStart(m);
    var pos := if start.Some? then start.value else Ptr(0, buf.first, 0);
    k := if start.Some? then k0 else 0;
    ghost var from := pos.pos;
    var lastChain := if end.Some? then end.value.chain else null;
    if |what| == 0 || |what| > EV_SSIZE_MAX {
      return pos, k;
    }
    while pos.chain != null
      invariant Points(m, pos, k) && from <= pos.pos && NoneBetween(c, what, from, pos.pos)
      decreases |m.segs| - k, if k < |m.segs| then |m.segs[k]| - pos.inChain else 0
    {
      RealAt(m, k);
      PassOver(m, pos, k);
      var chain := pos.chain;
      var at := Memchr(chain.Data(), what[0], pos.inChain);
      FirstByteScan(m, pos, k, what, at);
      if at != -1 {
        pos := Ptr(pos.pos + at - pos.inChain, chain, at);
        PassOver(m, pos, k);
        var cmp := PtrMemcmp(buf, pos, what, k);
        if cmp == 0 {
          if end.Some? && pos.pos + |what| > end.value.pos {
            return Ptr(-1, null, pos.inChain), k;
          }
          Within(c, what, pos.pos);
          return pos, k;
        }
        pos := Ptr(pos.pos + 1, chain, pos.inChain + 1);
        if pos.inChain == chain.off {
          pos, k := Ptr(pos.pos, chain.next, 0), k + 1;
        }
      } else {
        if chain == lastChain {
          SameChain(m, k, ke);
          LaterChain(m, Ptr(pos.pos + chain.off - pos.inChain, chain.next, 0), k + 1, end.value, ke);
          return Ptr(-1, null, pos.inChain), k;
        }
        pos, k := Ptr(pos.pos + chain.off - pos.inChain, chain.next, 0), k + 1;
      }
    }
    AtEnd(m, pos, k);
    if end.Some? {
      BeforeEnd(m, end.value, ke);
    }
    r := Ptr(-1, null, pos.inChain);
  }

  lemma Within(c: seq<byte>, what: seq<byte>, i: nat)
    requires OccursAt(c, what, i)
    ensures i + |what| <= |c|
  {
  }

  lemma SameChain(m: Layout, k: nat, ke: nat)
    requires Real(m) && k < |m.spine| && m.At(ke) == m.spine[k]
    ensures k == ke
  {
  }

  lemma BeforeEnd(m: Layout, p: Ptr, k: nat)
    requires Points(m, p, k)
    ensures p.pos <= |Flat(m.segs)|
  {
    if k < |m.segs| {
      PassOver(m, p, k);
    } else {
      AtEnd(m, p, k);
    }
  }

  // ---------- end of line ----------

  datatype EolStyle = EolAny | EolCrlf | EolCrlfStrict | EolLf

  /** The length of the end-of-line mark that `s` has at `i`; 0 if there is none. */
  function EolLen(s: seq<byte>, style: EolStyle, i: nat): (n: nat)
    requires i < |s|
    ensures i + n <= |s|
  {
    match style
    case EolAny => Span(s, {CR, LF}, i)
    case EolCrlf => if s[i] == LF then 1 else if OccursAt(s, [CR, LF], i) then 2 else 0
    case EolCrlfStrict => if OccursAt(s, [CR, LF], i) then 2 else 0
    case EolLf => if s[i] == LF then 1 else 0
  }

  /** No end of line in `s` from `lo` up to `hi`. */
  predicate NoEol(s: seq<byte>, style: EolStyle, lo: nat, hi: nat)
    requires hi <= |s|
  {
    forall i | lo <= i < hi :: EolLen(s, style, i) == 0
  }

  /** Each style's mark starts with one of these bytes. */
  function Starters(style: EolStyle): set<byte>
  {
    match style
    case EolAny => {CR, LF}
    case EolCrlf => {CR, LF}
    case EolCrlfStrict => {CR}
    case EolLf => {LF}
  }

  lemma NoStarterNoEol(s: seq<byte>, style: EolStyle, lo: nat, hi: nat)
    requires hi <= |s| && Absent(s, Starters(style), lo, hi)
    ensures NoEol(s, style, lo, hi)
  {
    forall i | lo <= i < hi
      ensures EolLen(s, style, i) == 0
    {
      if OccursAt(s, [CR, LF], i) {
        assert s[i] == s[i..i + 2][0];
      }
    }
  }

  /** CRLF_STRICT ends a line exactly where the two bytes occur. */
  lemma StrictEol(s: seq<byte>, lo: nat, hi: nat)
    requires hi <= |s| && NoneBetween(s, [CR, LF], lo, if hi == |s| then |s| - 1 else hi)
    ensures NoEol(s, EolCrlfStrict, lo, hi)
  {
  }

  /** The EVBUFFER_EOL_CRLF case of evbuffer_search_eol. */
  method SearchCrlf(buf: EvBuffer, start: Ptr, ghost k0: nat) returns (it: Ptr, eolLen: nat, ghost k: nat)
    requires buf.Shape() && buf.totalLen <= EV_SIZE_MAX && Points(buf.m, start, k0)
    ensures 0 <= start.pos <= |buf.Content()|
    ensures it.pos == -1 ==> NoEol(buf.Content(), EolCrlf, start.pos, |buf.Content()|) && eolLen == 0
    ensures it.pos != -1 ==> start.pos <= it.pos < |buf.Content()| && Points(buf.m, it, k)
                             && NoEol(buf.Content(), EolCrlf, start.pos, it.pos)
                             && eolLen == EolLen(buf.Content(), EolCrlf, it.pos) > 0
  {
    hide Real, Flat, Chain.Data, OccursAt, EolLen, Memchr;
    ghost var m, c := buf.m, buf.Content();
    RealLen(m);
    BeforeEnd(m, start, k0);
    it, k := start, k0;
    while true
      invariant Points(m, it, k) && start.pos <= it.pos <= |c| && NoEol(c, EolCrlf, start.pos, it.pos)
      decreases |c| - it.pos
    {
      ghost var from := it.pos;
      it, k := FindChar(buf, it, true, 0, k);
      NoStarterNoEol(c, EolCrlf, from, if it.pos == -1 then |c| else it.pos);
      if it.pos == -1 {
        return it, 0, 0;
      }
      RealAt(m, k);
      SegmentBytes(m, it, k);
      CrlfAt(c, it.pos);
      if it.chain.Data()[it.inChain] == LF {
        return it, 1, k;
      }
      var cmp := PtrMemcmp(buf, it, [CR, LF], k);
      if cmp == 0 {
        return it, 2, k;
      }
      var r, next;
      r, next, k := SetPtr(buf, it, 1, PtrAdd, k);
      if r < 0 {
        return Ptr(-1, null, 0), 0, 0;
      }
      it := next;
    }
  }

  lemma CrlfAt(s: seq<byte>, i: nat)
    requires i < |s|
    ensures EolLen(s, EolCrlf, i) == if s[i] == LF then 1 else if OccursAt(s, [CR, LF], i) then 2 else 0
  {
  }

  /** evbuffer_search_eol: the first end of line of the style, and how long its mark is. */
  method SearchEol(buf: EvBuffer, start: Maybe<Ptr>, style: EolStyle, ghost k0: nat) returns (it: Ptr, eolLen: nat,
      ghost k: nat)
    requires buf.Shape() && buf.totalLen <= EV_SIZE_MAX && (start.Some? ==> Points(buf.m, start.value, k0))
    ensures 0 <= From(start) <= |buf.Content()|
    ensures it.pos == -1 ==> NoEol(buf.Content(), style, From(start), |buf.Content()|) && eolLen == 0
    ensures it.pos != -1 ==> From(start) <= it.pos < |buf.Content()| && Points(buf.m, it, k)
                             && NoEol(buf.Content(), style, From(start), it.pos)
                             && eolLen == EolLen(buf.Content(), style, it.pos) > 0
  {
    hide Real, Flat, Chain.Data, OccursAt, Memchr;
    ghost var m, c := buf.m, buf.Content();
    RealLen(m);
    AtStart(m);
    it := if start.Some? then start.value else Ptr(0, buf.first, 0);
    k := if start.Some? then k0 else 0;
    BeforeEnd(m, it, k);
    ghost var from := it.pos;
    eolLen := 0;
    match style
    case EolAny =>
      it, k := FindChar(buf, it, true, 0, k);
      NoStarterNoEol(c, style, from, if it.pos == -1 then |c| else it.pos);
      if it.pos != -1 {
        eolLen := Strspn(buf, it, {CR, LF}, k);
      }
    case EolCrlfStrict =>
      it, k := SearchRange(buf, [CR, LF], Some(it), None, k, 0);
      StrictEol(c, from, if it.pos == -1 then |c| else it.pos);
      if it.pos != -1 {
        Within(c, [CR, LF], it.pos);
        eolLen := 2;
      }
    case EolCrlf =>
      it, eolLen, k := SearchCrlf(buf, it, k);
    case EolLf =>
      it, k := FindChar(buf, it, false, LF, k);
      NoStarterNoEol(c, style, from, if it.pos == -1 then |c| else it.pos);
      if it.pos != -1 {
        eolLen := 1;
      }
  }

  /**
   What a reader of lines gets from a stream: the first line, its mark, and what follows; None
   without an end of line.
  */
  function NextLine(s: seq<byte>, style: EolStyle, from: nat): (r: Maybe<(nat, nat)>)
    requires from <= |s|
    ensures r.None? ==> NoEol(s, style, from, |s|)
    ensures r.Some? ==> from <= r.value.0 < |s| && NoEol(s, style, from, r.value.0)
                        && r.value.1 == EolLen(s, style, r.value.0) > 0
    decreases |s| - from
  {
    if from == |s| then None
    else if EolLen(s, style, from) > 0 then Some((from, EolLen(s, style, from)))
    else NextLine(s, style, from + 1)
  }

  /** Taking a line and its mark off the front. */
  method TakeLine(buf: EvBuffer, n: nat, extraDrain: nat) returns (line: seq<byte>)
    requires buf.Valid() && !buf.freezeStart && n + extraDrain <= |buf.Content()|
    modifies buf`first, buf`last, buf`lastWithDataP, buf`totalLen, buf`m, buf.m.repr
    ensures buf.Valid() && (old(buf.Ready()) ==> buf.Ready()) && buf.m.repr <= old(buf.m.repr)
    ensures line == old(buf.Content())[..n] && buf.Content() == old(buf.Content())[n + extraDrain..]
  {
    hide Real, Flat, Chain.Data;
    ghost var c := buf.Content();
    var _, copied := buf.Remove(n);
    Rest(c, copied, buf.Content(), n, extraDrain);
    var _ := buf.Drain(extraDrain);
    line := copied;
  }

  lemma {:induction false} Rest(c: seq<byte>, line: seq<byte>, rest: seq<byte>, n: nat, extraDrain: nat)
    requires n + extraDrain <= |c| && c == line + rest && |line| == n
    ensures line == c[..n] && rest == c[n..]
      && (if extraDrain < |rest| then rest[extraDrain..] else []) == c[n + extraDrain..]
  {
  }

  /** evbuffer_readln: take the first line and its mark off the front. */
  method Readln(buf: EvBuffer, style: EolStyle) returns (line: Maybe<seq<byte>>, nRead: nat)
    requires buf.Valid() && buf.totalLen <= EV_SIZE_MAX
    modifies buf`first, buf`last, buf`lastWithDataP, buf`totalLen, buf`m, buf.m.repr
    ensures buf.Valid() && (old(buf.Ready()) ==> buf.Ready()) && buf.m.repr <= old(buf.m.repr)
    ensures line.None? <==> buf.freezeStart || NextLine(old(buf.Content()), style, 0).None?
    ensures line.None? ==> buf.Content() == old(buf.Content()) && nRead == 0
    ensures line.Some? ==> var c := old(buf.Content()); var (n, eol) := NextLine(c, style, 0).value;
                           line.value == c[..n] && nRead == n && buf.Content() == c[n + eol..]
  {
    hide Real, Flat, Chain.Data, EolLen, NextLine;
    if buf.freezeStart {
      return None, 0;
    }
    var it, extraDrain, _ := SearchEol(buf, None, style, 0);
    if it.pos < 0 {
      return None, 0;
    }
    var copied := TakeLine(buf, it.pos, extraDrain);
    return Some(copied), it.pos;
  }

  // ---------- a stream read line by line ----------

  /** What repeated reading of lines returns: each line with its mark. */
  function Lines(s: seq<byte>, style: EolStyle): (r: seq<(seq<byte>, seq<byte>)>)
    decreases |s|
  {
    match NextLine(s, style, 0)
    case None => []
    case Some((n, eol)) => [(s[..n], s[n..n + eol])] + Lines(s[n + eol..], style)
  }

  /** What is left in the buffer then. */
  function Unread(s: seq<byte>, style: EolStyle): (r: seq<byte>)
    decreases |s|
  {
    match NextLine(s, style, 0)
    case None => s
    case Some((n, eol)) => Unread(s[n + eol..], style)
  }

  function Unlines(ls: seq<(seq<byte>, seq<byte>)>): seq<byte>
  {
    if ls == [] then [] else ls[0].0 + ls[0].1 + Unlines(ls[1..])
  }

  /** The first line, its mark, and the rest. */
  lemma FirstLine(s: seq<byte>, style: EolStyle, n: nat, eol: nat)
    requires NextLine(s, style, 0) == Some((n, eol))
    ensures n + eol <= |s| && eol > 0 && s == s[..n] + s[n..n + eol] + s[n + eol..]
    ensures Lines(s, style) == [(s[..n], s[n..n + eol])] + Lines(s[n + eol..], style)
    ensures Unread(s, style) == Unread(s[n + eol..], style)
  {
    hide NextLine;
  }

  lemma NoLine(s: seq<byte>, style: EolStyle)
    requires NextLine(s, style, 0) == None
    ensures Lines(s, style) == [] && Unread(s, style) == s
  {
  }

  lemma UnlinesCons(l: (seq<byte>, seq<byte>), ls: seq<(seq<byte>, seq<byte>)>)
    ensures Unlines([l] + ls) == l.0 + l.1 + Unlines(ls)
  {
    assert ([l] + ls)[1..] == ls;
  }

  /** Reading lines ends, loses no byte, and leaves no line behind. */
  lemma {:induction false} LinesRejoin(s: seq<byte>, style: EolStyle)
    ensures Unlines(Lines(s, style)) + Unread(s, style) == s
    ensures |Lines(s, style)| <= |s| && NextLine(Unread(s, style), style, 0).None?
    decreases |s|
  {
    hide *;
    match NextLine(s, style, 0)
    case None =>
      NoLine(s, style);
      UnlinesNone();
    case Some((n, eol)) =>
      FirstLine(s, style, n, eol);
      LinesRejoin(s[n + eol..], style);
      UnlinesCons((s[..n], s[n..n + eol]), Lines(s[n + eol..], style));
  }

  lemma UnlinesNone()
    ensures Unlines([]) == []
  {
  }

  /** A line and its mark: the mark is one of the style, and there is none in the line. */
  ghost predicate GoodLine(style: EolStyle, line: seq<byte>, mark: seq<byte>)
  {
    Unmarked(style, line) &&
    match style
    case EolAny => mark != [] && forall c | c in mark :: c == CR || c == LF
    case EolCrlf => mark == [CR, LF] || (mark == [LF] && (line == [] || line[|line| - 1] != CR))
    case EolCrlfStrict => mark == [CR, LF]
    case EolLf => mark == [LF]
  }

  ghost predicate Unmarked(style: EolStyle, line: seq<byte>)
  {
    match style
    case EolAny => CR !in line && LF !in line
    case EolCrlf => LF !in line
    case EolCrlfStrict => forall i, j | 0 <= i < j < |line| && j == i + 1 :: line[i] != CR || line[j] != LF
    case EolLf => LF !in line
  }

  /** What the four styles mean: LF, LF perhaps with CR in front, CR LF, and CRs and LFs as many as there are. */
  lemma {:induction false} LinesMean(s: seq<byte>, style: EolStyle)
    ensures forall k | 0 <= k < |Lines(s, style)| :: GoodLine(style, Lines(s, style)[k].0, Lines(s, style)[k].1)
    ensures style == EolAny ==> forall k | 0 < k < |Lines(s, style)| :: Lines(s, style)[k].0 != []
    ensures Unmarked(style, Unread(s, style))
    decreases |s|
  {
    hide NextLine, EolLen, GoodLine, Unmarked, NoEol, Lines, Unread;
    var next := NextLine(s, style, 0);
    if next == None {
      NoneMarked(s, style, |s|);
      assert s[..|s|] == s;
      NoLine(s, style);
    } else {
      var (n, eol) := next.value;
      FirstLine(s, style, n, eol);
      OneMark(s, style, n);
      var rest := s[n + eol..];
      LinesMean(rest, style);
      if style == EolAny {
        FirstNotEmpty(rest);
      }
      assert Lines(s, style)[1..] == Lines(rest, style);
      assert forall k | 0 < k < |Lines(s, style)| :: Lines(s, style)[k] == Lines(rest, style)[k - 1];
    }
  }

  lemma {:induction false} FirstNotEmpty(s: seq<byte>)
    requires s == [] || (s[0] != CR && s[0] != LF)
    ensures Lines(s, EolAny) != [] ==> Lines(s, EolAny)[0].0 != []
  {
    hide NextLine, Unread, NoEol;
    if NextLine(s, EolAny, 0) == None {
      NoLine(s, EolAny);
    } else {
      var (n, eol) := NextLine(s, EolAny, 0).value;
      FirstLine(s, EolAny, n, eol);
      MarkAt(s, EolAny, n);
      assert s[n] in s[n..n + eol];
    }
  }

  /** What it means that there is no mark at `i`, and what it means that there is one. */
  lemma {:induction false} NoMarkAt(s: seq<byte>, style: EolStyle, i: nat)
    requires i < |s| && EolLen(s, style, i) == 0
    ensures style == EolAny ==> s[i] != CR && s[i] != LF
    ensures style == EolCrlf || style == EolLf ==> s[i] != LF
    ensures (style == EolCrlf || style == EolCrlfStrict) && i + 1 < |s| ==> s[i] != CR || s[i + 1] != LF
  {
    assert i + 1 < |s| ==> s[i..i + 2] == [s[i], s[i + 1]];
  }

  lemma {:induction false} MarkAt(s: seq<byte>, style: EolStyle, i: nat)
    requires i < |s| && EolLen(s, style, i) > 0
    ensures var m := s[i..i + EolLen(s, style, i)];
            match style
            case EolAny => forall c | c in m :: c == CR || c == LF
            case EolCrlf => (m == [LF] && s[i] == LF) || m == [CR, LF]
            case EolCrlfStrict => m == [CR, LF]
            case EolLf => m == [LF]
    ensures var to := i + EolLen(s, style, i); style == EolAny && to < |s| ==> s[to] != CR && s[to] != LF
  {
    assert s[i..i + 1] == [s[i]];
  }

  lemma {:induction false} NoneMarked(s: seq<byte>, style: EolStyle, n: nat)
    requires n <= |s| && NoEol(s, style, 0, n)
    ensures Unmarked(style, s[..n])
  {
    hide EolLen;
    forall i | 0 <= i < n
      ensures style == EolAny ==> s[i] != CR && s[i] != LF
      ensures style == EolCrlf || style == EolLf ==> s[i] != LF
      ensures style == EolCrlfStrict && i + 1 < |s| ==> s[i] != CR || s[i + 1] != LF
    {
      NoMarkAt(s, style, i);
    }
  }

  lemma {:induction false} OneMark(s: seq<byte>, style: EolStyle, n: nat)
    requires n < |s| && NoEol(s, style, 0, n) && EolLen(s, style, n) > 0
    ensures var eol := EolLen(s, style, n);
            && GoodLine(style, s[..n], s[n..n + eol])
            && (style == EolAny ==> n + eol == |s| || (s[n + eol] != CR && s[n + eol] != LF))
  {
    hide EolLen, Unmarked;
    NoneMarked(s, style, n);
    MarkAt(s, style, n);
    if n > 0 {
      NoMarkAt(s, style, n - 1);
    }
  }

  /** Whether more input could lengthen a mark found at the end of `a`. */
  predicate MarkGrows(a: seq<byte>, b: seq<byte>, style: EolStyle, n: nat, eol: nat)
  {
    style == EolAny && n + eol == |a| && b != [] && b[0] in {CR, LF}
  }

  /** The bytes that follow decide nothing about a mark inside `a`, unless they make it longer. */
  lemma EolLenAppend(a: seq<byte>, b: seq<byte>, style: EolStyle, i: nat)
    requires i < |a|
    ensures i + 1 < |a| && EolLen(a, style, i) == 0 ==> EolLen(a + b, style, i) == 0
    ensures EolLen(a, style, i) > 0 ==>
      (EolLen(a + b, style, i) == EolLen(a, style, i) <==> !MarkGrows(a, b, style, i, EolLen(a, style, i)))
  {
    var c := a + b;
    assert i + 2 <= |a| ==> c[i..i + 2] == a[i..i + 2];
    var n := Span(a, {CR, LF}, i);
    if i + n < |a| {
      SpanIs(c, {CR, LF}, i, n);
    } else if b != [] {
      assert c[|a|] == b[0];
      if b[0] !in {CR, LF} {
        SpanIs(c, {CR, LF}, i, n);
      }
    } else {
      assert c == a;
    }
  }

  /** A line found before more input arrives is the line found afterwards, unless its mark grows. */
  lemma {:induction false} NextLineAppend(a: seq<byte>, b: seq<byte>, style: EolStyle, from: nat)
    requires from <= |a| && NextLine(a, style, from).Some?
    ensures var (n, eol) := NextLine(a, style, from).value;
            NextLine(a + b, style, from) == NextLine(a, style, from) <==> !MarkGrows(a, b, style, n, eol)
    decreases |a| - from
  {
    hide EolLen;
    EolLenAppend(a, b, style, from);
    if EolLen(a, style, from) == 0 {
      NextLineAppend(a, b, style, from + 1);
    }
  }

  /** The pieces meet inside a mark of EOL_ANY. */
  predicate SplitsMark(a: seq<byte>, b: seq<byte>, style: EolStyle)
  {
    style == EolAny && a != [] && a[|a| - 1] in {CR, LF} && b != [] && b[0] in {CR, LF}
  }

  /**
   Input that arrives in two pieces, with lines read in between, gives the same
   lines if and only if the pieces do not meet inside a mark of EOL_ANY; there
   the mark ends two lines instead of one.  What is left unread is always the same.
  */
  lemma {:induction false} LinesArrive(a: seq<byte>, b: seq<byte>, style: EolStyle)
    ensures Lines(a + b, style) == Lines(a, style) + Lines(Unread(a, style) + b, style) <==> !SplitsMark(a, b, style)
    ensures |Lines(a, style)| + |Lines(Unread(a, style) + b, style)| ==
            |Lines(a + b, style)| + if SplitsMark(a, b, style) then 1 else 0
    ensures Unread(a + b, style) == Unread(Unread(a, style) + b, style)
    decreases |a|
  {
    hide *;
    match NextLine(a, style, 0)
    case None =>
      NoLine(a, style);
      NoMarkAtEnd(a, b, style);
    case Some((n, eol)) =>
      var rest := a[n + eol..];
      FirstLine(a, style, n, eol);
      MarkAtEnd(a, b, style, n, eol);
      if MarkGrows(a, b, style, n, eol) {
        LongerMark(a, b, n, eol);
      } else {
        NextLineAppend(a, b, style, 0);
        FirstLine(a + b, style, n, eol);
        LinesArrive(rest, b, style);
        assert (a + b)[n + eol..] == rest + b;
        assert (a + b)[..n] == a[..n] && (a + b)[n..n + eol] == a[n..n + eol];
        SameFirst((a[..n], a[n..n + eol]), Lines(rest + b, style), Lines(rest, style), Lines(Unread(rest, style) + b, style));
      }
  }

  lemma {:induction false} SameFirst<T>(x: T, whole: seq<T>, before: seq<T>, after: seq<T>)
    ensures [x] + whole == [x] + before + after <==> whole == before + after
  {
    assert ([x] + whole)[1..] == whole && ([x] + before + after)[1..] == before + after;
    assert [x] + (before + after) == [x] + before + after;
  }

  lemma {:induction false} NoMarkAtEnd(a: seq<byte>, b: seq<byte>, style: EolStyle)
    requires NextLine(a, style, 0).None?
    ensures !SplitsMark(a, b, style)
  {
    if a != [] {
      assert EolLen(a, style, |a| - 1) == 0;
    }
  }

  /** The first mark grows, or it decides nothing about how `a` ends. */
  lemma {:induction false} MarkAtEnd(a: seq<byte>, b: seq<byte>, style: EolStyle, n: nat, eol: nat)
    requires NextLine(a, style, 0) == Some((n, eol)) && n + eol <= |a|
    ensures if MarkGrows(a, b, style, n, eol)
            then SplitsMark(a, b, style) && style == EolAny && n + eol == |a| && b != [] && b[0] in {CR, LF}
            else SplitsMark(a, b, style) == SplitsMark(a[n + eol..], b, style)
  {
  }

  /** A mark of EOL_ANY at the end of `a` takes the mark that `b` starts with. */
  lemma {:induction false} LongerMark(a: seq<byte>, b: seq<byte>, n: nat, eol: nat)
    requires NextLine(a, EolAny, 0) == Some((n, eol)) && n + eol == |a| && b != [] && b[0] in {CR, LF}
    ensures |Lines(a, EolAny)| == 1 && Unread(a, EolAny) == [] && |Lines([] + b, EolAny)| == |Lines(a + b, EolAny)|
    ensures Unread(a + b, EolAny) == Unread([] + b, EolAny)
  {
    hide NextLine, Lines, Unread;
    var m := Span(b, {CR, LF}, 0);
    NoLine([], EolAny);
    FirstLine(a, EolAny, n, eol);
    LongerNext(a, b, n, eol);
    FirstLine(a + b, EolAny, n, eol + m);
    NextHere(b);
    FirstLine(b, EolAny, 0, m);
    assert a[n + eol..] == [] && (a + b)[n + eol + m..] == b[m..] && [] + b == b;
  }

  lemma {:induction false} NextHere(b: seq<byte>)
    requires b != [] && b[0] in {CR, LF}
    ensures NextLine(b, EolAny, 0) == Some((0, Span(b, {CR, LF}, 0)))
  {
  }

  lemma {:induction false} LongerNext(a: seq<byte>, b: seq<byte>, n: nat, eol: nat)
    requires NextLine(a, EolAny, 0) == Some((n, eol)) && n + eol == |a|
    ensures NextLine(a + b, EolAny, 0) == Some((n, eol + Span(b, {CR, LF}, 0)))
  {
    var c, m := a + b, Span(b, {CR, LF}, 0);
    forall i | 0 <= i < n
      ensures EolLen(c, EolAny, i) == 0
    {
      assert EolLen(a, EolAny, i) == 0;
    }
    SpanIs(c, {CR, LF}, n, eol + m);
    NextIs(c, EolAny, 0, n);
  }

  lemma {:induction false} NextIs(s: seq<byte>, style: EolStyle, from: nat, n: nat)
    requires from <= n < |s| && NoEol(s, style, from, n) && EolLen(s, style, n) > 0
    ensures NextLine(s, style, from) == Some((n, EolLen(s, style, n)))
    decreases n - from
  {
    if from < n {
      NextIs(s, style, from + 1, n);
    }
  }

  /** With EOL_ANY it need not: a CR LF that arrives in two pieces ends two lines. */
  lemma AnySplitsMark()
    ensures Lines([CR, LF], EolAny) == [([], [CR, LF])]
    ensures Lines([CR], EolAny) + Lines(Unread([CR], EolAny) + [LF], EolAny) == [([], [CR]), ([], [LF])]
  {
    var both: seq<byte>, cr: seq<byte>, lf: seq<byte> := [CR, LF], [CR], [LF];
    FirstLine(both, EolAny, 0, 2);
    FirstLine(cr, EolAny, 0, 1);
    FirstLine(lf, EolAny, 0, 1);
    NoLine([], EolAny);
    assert both[..0] == [] && both[0..2] == both && both[2..] == [];
    assert cr[..0] == [] && cr[0..1] == cr && cr[1..] == [] && [] + lf == lf;
    assert lf[..0] == [] && lf[0..1] == lf && lf[1..] == [];
  }
}
