/** The tagged wire format written to and read from evbuffers (event_tagging.c). */
module TagBuffers {
  import opened Options
  import opened Bytes
  import opened Chains
  import opened EvBuffers
  import opened BufferPullup
  import opened Tagging

  /** The buffer takes `n` more bytes: the encoders do not look whether evbuffer_add succeeds. */
  ghost predicate Takes(buf: EvBuffer, n: nat)
    reads buf
  {
    !buf.freezeEnd && buf.totalLen + n <= EV_SIZE_MAX
  }

  /** evtag_encode_int, evtag_encode_int64 */
  method EncodeIntTo(buf: EvBuffer, number: nat, size: nat)
    requires (size == 5 && number < TWO32) || (size == 9 && number < TWO64)
    requires buf.Ready() && Takes(buf, size)
    modifies buf, buf.m.repr
    ensures buf.Ready() && fresh(buf.m.repr - old(buf.m.repr)) && buf.freezeEnd == old(buf.freezeEnd)
      && buf.freezeStart == old(buf.freezeStart)
    ensures buf.Content() == old(buf.Content()) + EncodeInt(number) && |EncodeInt(number)| <= size
  {
    hide Real, Flat, Layout.Packed, EncodeInt;
    var data := new byte[size];
    var len := EncodeIntInternal(data, number, size);
    buf.ReadyToAdd(data[..len]);
    var _ := buf.Add(data[..len]);
  }

  /** evtag_encode_tag */
  method EncodeTagTo(buf: EvBuffer, tag: nat) returns (bytes: nat)
    requires tag < TWO32 && buf.Ready() && Takes(buf, 5)
    modifies buf, buf.m.repr
    ensures buf.Ready() && fresh(buf.m.repr - old(buf.m.repr)) && buf.freezeEnd == old(buf.freezeEnd)
      && buf.freezeStart == old(buf.freezeStart)
    ensures buf.Content() == old(buf.Content()) + EncodeTag(tag) && bytes == |EncodeTag(tag)| <= 5
  {
    hide Real, Flat, Layout.Packed, EncodeTag;
    var data := new byte[5];
    bytes := EncodeTagBytes(data, tag);
    buf.ReadyToAdd(data[..bytes]);
    var _ := buf.Add(data[..bytes]);
  }

  /** evtag_marshal */
  method Marshal(buf: EvBuffer, tag: nat, payload: seq<byte>)
    requires tag < TWO32 && |payload| < TWO32 && buf.Ready() && Takes(buf, 10 + |payload|)
    modifies buf, buf.m.repr
    ensures buf.Ready() && fresh(buf.m.repr - old(buf.m.repr)) && buf.freezeEnd == old(buf.freezeEnd)
      && buf.freezeStart == old(buf.freezeStart)
    ensures buf.Content() == old(buf.Content()) + Record(tag, payload)
  {
    hide Real, Flat, Layout.Packed, EncodeTag, EncodeInt;
    ghost var c := buf.Content();
    var _ := EncodeTagTo(buf, tag);
    EncodeIntTo(buf, |payload|, 5);
    buf.ReadyToAdd(payload);
    var _ := buf.Add(payload);
    assert ((c + EncodeTag(tag)) + EncodeInt(|payload|)) + payload == c + Record(tag, payload);
  }

  /** encode_int_internal, encode_int64_internal into an array of their own */
  method IntBytes(integer: nat, size: nat) returns (payload: seq<byte>)
    requires (size == 5 && integer < TWO32) || (size == 9 && integer < TWO64)
    ensures payload == EncodeInt(integer) && |payload| <= size
  {
    hide EncodeInt;
    var data := new byte[size];
    var len := EncodeIntInternal(data, integer, size);
    payload := data[..len];
  }

  /** evtag_marshal_int, evtag_marshal_int64 */
  method MarshalInt(buf: EvBuffer, tag: nat, integer: nat, size: nat)
    requires (size == 5 && integer < TWO32) || (size == 9 && integer < TWO64)
    requires tag < TWO32 && buf.Ready() && Takes(buf, 10 + size)
    modifies buf, buf.m.repr
    ensures buf.Ready() && fresh(buf.m.repr - old(buf.m.repr)) && buf.freezeEnd == old(buf.freezeEnd)
      && buf.freezeStart == old(buf.freezeStart)
    ensures |EncodeInt(integer)| <= size && buf.Content() == old(buf.Content()) + Record(tag, EncodeInt(integer))
  {
    hide Real, Flat, Layout.Packed, EncodeTag, EncodeInt;
    ghost var c := buf.Content();
    var payload := IntBytes(integer, size);
    var _ := EncodeTagTo(buf, tag);
    EncodeIntTo(buf, |payload|, 5);
    buf.ReadyToAdd(payload);
    var _ := buf.Add(payload);
    assert ((c + EncodeTag(tag)) + EncodeInt(|payload|)) + payload == c + Record(tag, payload);
  }

  /** The tag at the front ends within the five bytes that are made contiguous, or the buffer does. */
  predicate TagInReach(s: seq<byte>)
  {
    |s| <= 5 || (DecodeTag(s).Some? && DecodeTag(s).value.1 <= 5)
  }

  /** The source reads on behind the five bytes exactly if there are more and all five have the high bit set. */
  lemma {:induction false} WhenOutOfReach(s: seq<byte>)
    ensures !TagInReach(s) <==> |s| > 5 && forall i | 0 <= i < 5 :: s[i] >= 128
  {
    if |s| > 5 {
      HighBytes(s, 5);
    }
  }

  lemma {:induction false} HighBytes(s: seq<byte>, k: nat)
    requires k <= |s|
    ensures DecodeTag(s).Some? && DecodeTag(s).value.1 <= k <==> exists i :: 0 <= i < k && s[i] < 128
  {
    if k > 0 && s[0] >= 128 {
      HighBytes(s[1..], k - 1);
      if i :| 0 <= i < k && s[i] < 128 {
        assert s[1..][i - 1] < 128;
      }
      if i :| 0 <= i < k - 1 && s[1..][i] < 128 {
        assert s[i + 1] < 128;
      }
    }
  }

  /** Five bytes of 128 in front of anything else. */
  lemma {:induction false} OutOfReachAt(rest: seq<byte>)
    requires rest != []
    ensures !TagInReach([128, 128, 128, 128, 128] + rest)
  {
    WhenOutOfReach([128, 128, 128, 128, 128] + rest);
  }

  lemma {:induction false} PrefixTag(s: seq<byte>, k: nat)
    requires k <= |s|
    requires k == |s| || (DecodeTag(s).Some? && DecodeTag(s).value.1 <= k)
    ensures DecodeTag(s[..k]) == DecodeTag(s)
    decreases |s|
  {
    if k == |s| {
      assert s[..k] == s;
    } else if s[0] >= 128 {
      PrefixTag(s[1..], k - 1);
      assert s[..k][1..] == s[1..][..k - 1];
    }
  }

  /** decode_tag_internal */
  method DecodeTagFrom(buf: EvBuffer, drain: bool) returns (r: int, tag: nat)
    requires buf.Ready() && !buf.freezeStart && TagInReach(buf.Content())
    modifies buf, buf.m.repr
    ensures buf.Ready() && fresh(buf.m.repr - old(buf.m.repr)) && !buf.freezeStart
      && buf.freezeEnd == old(buf.freezeEnd)
    ensures var t := PeekTag(old(buf.Content()));
            && (if t.None? then r == -1 else r == t.value.1 && tag == t.value.0)
            && buf.Content() == if drain && t.Some? then old(buf.Content())[t.value.1..] else old(buf.Content())
  {
    hide Real, Flat, Layout.Packed, Layout.TailEmpty, DecodeTag, Chain.Data;
    PackedTailEmpty(buf.m);
    ghost var c := buf.Content();
    var n: nat := if buf.totalLen < 5 then buf.totalLen else 5;
    var chain := Pullup(buf, n);
    if chain == null {
      NoTag(c);
      return -1, 0;
    }
    var data := chain.Data()[..n];
    assert data == c[..n];
    PrefixTag(c, n);
    var ok, number, count := DecodeTagBytes(data);
    if !ok {
      return -1, 0;
    }
    PackedTailEmpty(buf.m);
    if drain {
      var _ := buf.Drain(count);
      assert count == |c| ==> c[count..] == [];
    }
    return count, number % TWO32;
  }

  /** evtag_peek_length */
  method PeekLengthFrom(buf: EvBuffer) returns (r: int, length: nat)
    requires buf.Ready() && !buf.freezeStart && TagInReach(buf.Content())
    modifies buf, buf.m.repr
    ensures buf.Ready() && fresh(buf.m.repr - old(buf.m.repr)) && buf.Content() == old(buf.Content())
    ensures var h := Header(buf.Content()); if h.None? then r == -1 else r == 0 && length == (h.value.1 + h.value.2) % TWO32
  {
    hide Real, Flat, Layout.Packed, Layout.TailEmpty, DecodeTag, DecodeInt;
    var len, tag := DecodeTagFrom(buf, false);
    if len == -1 {
      return -1, 0;
    }
    var res, number := DecodeIntFrom(buf, len, 8);
    if res == -1 {
      return -1, 0;
    }
    return 0, (number + (res + len)) % TWO32;
  }

  lemma {:induction false} PrefixInt(s: seq<byte>, k: nat, maxNibbles: nat)
    requires 0 < k <= |s| && maxNibbles <= 16
    requires DecodeInt(s, maxNibbles).Some? ==> DecodeInt(s, maxNibbles).value.1 <= k
    requires (s[0] as int) / 16 + 1 <= maxNibbles && ((s[0] as int) / 16 + 1) / 2 + 1 <= k
    ensures DecodeInt(s[..k], maxNibbles) == DecodeInt(s, maxNibbles)
  {
    var n := (s[0] as int) / 16 + 1;
    SameValue(s[..k], s, 1, n);
  }

  lemma {:induction false} SameValue(a: seq<byte>, b: seq<byte>, i: nat, n: nat)
    requires 1 <= i <= n + 1 && n / 2 < |a| && n / 2 < |b| && forall k | 0 <= k <= n / 2 :: a[k] == b[k]
    ensures ValueFrom(a, i, n) == ValueFrom(b, i, n)
    decreases n + 1 - i
  {
    if i <= n {
      SameValue(a, b, i + 1, n);
    }
  }

  lemma {:induction false} PartOf(data: seq<byte>, c: seq<byte>, offset: nat, len: nat)
    requires offset + len <= |c| && c[..offset + len] <= data
    ensures data[..offset + len][offset..] == c[offset..][..len]
  {
    assert data[..offset + len] == c[..offset + len];
  }

  /** decode_int_internal, decode_int64_internal: read at an offset, nothing drained. */
  method DecodeIntFrom(buf: EvBuffer, offset: nat, maxNibbles: nat) returns (r: int, number: nat)
    requires buf.Ready() && offset <= buf.totalLen && maxNibbles <= 16
    modifies buf, buf.m.repr
    ensures buf.Ready() && fresh(buf.m.repr - old(buf.m.repr)) && buf.Content() == old(buf.Content())
    ensures buf.freezeStart == old(buf.freezeStart) && buf.freezeEnd == old(buf.freezeEnd)
      && buf.totalLen == old(buf.totalLen)
    ensures var d := DecodeInt(buf.Content()[offset..], maxNibbles);
            if d.None? then r == -1 else r == d.value.1 && number == d.value.0
  {
    hide Real, Flat, Layout.Packed, Layout.TailEmpty, Chain.Data, ValueFrom;
    PackedTailEmpty(buf.m);
    ghost var c := buf.Content();
    var len := buf.totalLen - offset;
    if len <= 0 {
      return -1, 0;
    }
    var first := Pullup(buf, offset + 1);
    var b := first.Data()[offset];
    assert b == c[offset] by {
      var pre := c[..offset + 1];
      assert pre <= first.Data() && pre[offset] == c[offset];
    }
    var nibbles: nat := (b as int) / 16 + 1;
    if nibbles > maxNibbles || nibbles / 2 + 1 > len {
      return -1, 0;
    }
    len := nibbles / 2 + 1;
    PackedTailEmpty(buf.m);
    first := Pullup(buf, offset + len);
    var data := first.Data()[..offset + len][offset..];
    PartOf(first.Data(), c, offset, len);
    PrefixInt(c[offset..], len, maxNibbles);
    var ok, n, l := DecodeIntInternal(data, maxNibbles);
    return l, n;
  }

  /** evtag_decode_int, evtag_decode_int64 */
  method TakeInt(buf: EvBuffer, maxNibbles: nat) returns (r: int, number: nat)
    requires buf.Ready() && !buf.freezeStart && maxNibbles <= 16
    modifies buf, buf.m.repr
    ensures buf.Ready() && fresh(buf.m.repr - old(buf.m.repr)) && !buf.freezeStart
      && buf.freezeEnd == old(buf.freezeEnd)
    ensures var d := DecodeInt(old(buf.Content()), maxNibbles);
            && (if d.None? then r == -1 else r == 0 && number == d.value.0)
            && buf.Content() == if d.Some? then old(buf.Content())[d.value.1..] else old(buf.Content())
  {
    hide Real, Flat, Layout.Packed, Layout.TailEmpty, Chain.Data, DecodeInt;
    ghost var c := buf.Content();
    assert c[0..] == c;
    var res, n := DecodeIntFrom(buf, 0, maxNibbles);
    if res == -1 {
      return -1, 0;
    }
    PackedTailEmpty(buf.m);
    var _ := buf.Drain(res);
    assert res == |c| ==> c[res..] == [];
    return 0, n;
  }

  /**
   evtag_unmarshal_header: the length of the payload, which now starts the buffer; -1 for a header
   that is not there, or not all of the payload.
  */
  method UnmarshalHeader(buf: EvBuffer) returns (len: int, tag: nat)
    requires buf.Ready() && !buf.freezeStart && TagInReach(buf.Content())
    modifies buf, buf.m.repr
    ensures buf.Ready() && fresh(buf.m.repr - old(buf.m.repr)) && !buf.freezeStart
      && buf.freezeEnd == old(buf.freezeEnd)
    ensures var c, h := old(buf.Content()), Header(old(buf.Content()));
            if h.None? || |c| - h.value.1 < h.value.2 then len == -1
            else h.value.2 < TWO32 && len == AsInt(h.value.2) && tag == h.value.0 && buf.Content() == c[h.value.1..]
  {
    hide Real, Flat, Layout.Packed, Layout.TailEmpty, DecodeTag, DecodeInt;
    ghost var c := buf.Content();
    var t;
    t, tag := DecodeTagFrom(buf, true);
    if t == -1 {
      return -1, 0;
    }
    var r, n := TakeInt(buf, 8);
    if r == -1 {
      return -1, 0;
    }
    HeaderSplits(c);
    if buf.totalLen < n {
      return -1, 0;
    }
    return AsInt(n), tag;
  }

  /** A 32-bit unsigned number as an int. */
  function AsInt(n: nat): (r: int)
    ensures n < TWO31 ==> r == n
    ensures TWO31 <= n < TWO32 ==> r < 0 && (r == -1 <==> n == TWO32 - 1)
  {
    if n < TWO31 then n else n - TWO32
  }

  lemma {:induction false} HeaderSplits(c: seq<byte>)
    ensures Header(c).Some? ==>
      && DecodeTag(c).Some? && DecodeInt(c[DecodeTag(c).value.1..], 8).Some?
      && Header(c).value.2 < TWO32
      && c[DecodeTag(c).value.1..][DecodeInt(c[DecodeTag(c).value.1..], 8).value.1..] == c[Header(c).value.1..]
  {
    hide DecodeTag;
    if DecodeTag(c).Some? {
      SmallInt(c[DecodeTag(c).value.1..]);
    }
  }

  lemma {:induction false} SmallInt(s: seq<byte>)
    ensures DecodeInt(s, 8).Some? ==> DecodeInt(s, 8).value.0 < TWO32
  {
    if DecodeInt(s, 8).Some? {
      var n := (s[0] as int) / 16 + 1;
      ValueBound(s, 1, n);
      Pow16Grows(n, 8);
      Widths();
    }
  }

  lemma {:induction false} ValueBound(b: seq<byte>, i: nat, n: nat)
    requires 1 <= i <= n + 1 && n / 2 < |b|
    ensures ValueFrom(b, i, n) < Pow16(n + 1 - i)
    decreases n + 1 - i
  {
    if i <= n {
      ValueBound(b, i + 1, n);
    }
  }

  /**
   evtag_unmarshal_fixed before it compares tag and length; also evtag_unmarshal and
   evtag_unmarshal_string on lengths below 2 ^ 31.
  */
  method TakePayload(buf: EvBuffer) returns (ok: bool, tag: nat, payload: seq<byte>)
    requires buf.Ready() && !buf.freezeStart && TagInReach(buf.Content())
    modifies buf, buf.m.repr
    ensures buf.Ready() && fresh(buf.m.repr - old(buf.m.repr)) && !buf.freezeStart
      && buf.freezeEnd == old(buf.freezeEnd)
    ensures var u := Unmarshal(old(buf.Content()));
            && (ok <==> u.Some?)
            && (ok ==> (tag, payload, buf.Content()) == u.value)
  {
    hide Real, Flat, Layout.Packed, Layout.TailEmpty, Header;
    ghost var c := buf.Content();
    var len;
    len, tag := UnmarshalHeader(buf);
    if len < 0 {
      return false, 0, [];
    }
    PackedTailEmpty(buf.m);
    ghost var body := buf.Content();
    var r;
    r, payload := buf.Remove(len);
    assert body == payload + buf.Content();
    assert body[..len] == payload && body[len..] == buf.Content();
    BodySplit(c, Header(c).value.1, len);
    ok := true;
  }

  lemma {:induction false} BodySplit(c: seq<byte>, a: nat, n: nat)
    requires a + n <= |c|
    ensures c[a..][..n] == c[a..a + n] && c[a..][n..] == c[a + n..]
  {
  }

  /** What is left after draining `n` bytes. */
  function From(s: seq<byte>, n: nat): (r: seq<byte>)
  {
    if n < |s| then s[n..] else []
  }

  /** A 32-bit number turned into an int and then into a size_t. */
  function Extended(n: nat): (r: nat)
  {
    if n < TWO31 then n else n + (TWO64 - TWO32)
  }

  lemma {:induction false} RestIs(c: seq<byte>)
    ensures Unmarshal(c).Some? ==>
      var h := Header(c);
      && h.Some? && h.value.2 < TWO31 && |c| - h.value.1 >= h.value.2
      && Unmarshal(c).value.2 == From(c[h.value.1..], h.value.2)
  {
    hide Header;
    if Unmarshal(c).Some? {
      BodySplit(c, Header(c).value.1, Header(c).value.2);
    }
  }

  /**
   evtag_consume: skip a record; a length of 2 ^ 31 and above turns into a size that drains all
   there is, or into -1.
  */
  method Consume(buf: EvBuffer) returns (r: int)
    requires buf.Ready() && !buf.freezeStart && TagInReach(buf.Content())
    modifies buf, buf.m.repr
    ensures buf.Ready() && fresh(buf.m.repr - old(buf.m.repr))
    ensures var u := Unmarshal(old(buf.Content())); u.Some? ==> r == 0 && buf.Content() == u.value.2
    ensures var c, h := old(buf.Content()), Header(old(buf.Content()));
            if h.None? || |c| - h.value.1 < h.value.2 || h.value.2 == TWO32 - 1 then r == -1
            else h.value.2 < TWO32 && r == 0 && buf.Content() == From(c[h.value.1..], Extended(h.value.2))
  {
    hide Real, Flat, Layout.Packed, Layout.TailEmpty, Header, Unmarshal, TagInReach, DecodeTag, DecodeInt;
    RestIs(buf.Content());
    var len, tag := UnmarshalHeader(buf);
    if len == -1 {
      return -1;
    }
    r := DrainInt(buf, len);
  }

  /** The length as an int, and then as a size_t. */
  method DrainInt(buf: EvBuffer, len: int) returns (r: int)
    requires buf.Ready() && !buf.freezeStart && -TWO31 <= len < TWO31
    modifies buf, buf.m.repr
    ensures buf.Ready() && buf.m.repr <= old(buf.m.repr) && r == 0
    ensures buf.Content() == From(old(buf.Content()), if len < 0 then len + TWO64 else len)
  {
    hide Real, Flat, Layout.Packed, Layout.TailEmpty;
    PackedTailEmpty(buf.m);
    ghost var body := buf.Content();
    r := buf.Drain(if len < 0 then len + TWO64 else len);
    assert len == |body| ==> body[len..] == [];
  }
}
