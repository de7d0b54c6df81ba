/** The tagged wire format (event_tagging.c): integers, tags and records as byte sequences. */
module Tagging {
  import opened Options
  import opened Bytes

  const TWO31 := 0x8000_0000
  const TWO32 := 0x1_0000_0000
  const TWO64 := 0x1_0000_0000_0000_0000

  // ---------- integers: nibbles, least significant first ----------

  /** The significant nibbles of a number, least significant first. */
  function Nibbles(n: nat): (d: seq<nat>)
    ensures forall i | 0 <= i < |d| :: d[i] < 16
  {
    if n == 0 then [] else [n % 16] + Nibbles(n / 16)
  }

  /** The number that nibbles stand for. */
  function Value(d: seq<nat>): nat
  {
    if d == [] then 0 else d[0] + 16 * Value(d[1..])
  }

  lemma {:induction false} ValueOfNibbles(n: nat)
    ensures Value(Nibbles(n)) == n
  {
    if n > 0 {
      ValueOfNibbles(n / 16);
      assert Nibbles(n)[1..] == Nibbles(n / 16);
    }
  }

  function Pow16(k: nat): (r: nat)
    ensures r >= 1
  {
    if k == 0 then 1 else 16 * Pow16(k - 1)
  }

  /** Numbers below 16^k have at most k nibbles. */
  lemma {:induction false} NibbleCount(n: nat, k: nat)
    requires n < Pow16(k)
    ensures |Nibbles(n)| <= k
    decreases k
  {
    if n > 0 {
      NibbleCount(n / 16, k - 1);
    }
  }

  lemma {:induction false} Widths()
    ensures Pow16(8) == TWO32 && Pow16(16) == TWO64
  {
    assert Pow16(4) == 0x1_0000;
    assert Pow16(8) == 0x1_0000 * 0x1_0000;
    assert Pow16(12) == 0x1_0000 * 0x1_0000 * 0x1_0000;
  }

  function NibbleAt(d: seq<nat>, i: int): (x: nat)
    requires forall k | 0 <= k < |d| :: d[k] < 16
    ensures x < 16
  {
    if 0 <= i < |d| then d[i] else 0
  }

  /** Byte `m` of an encoded integer with nibbles `d`: the first half of byte 0 counts the nibbles. */
  function PackedByte(d: seq<nat>, m: nat): (b: byte)
    requires |d| <= 16 && forall k | 0 <= k < |d| :: d[k] < 16
  {
    (if m == 0 then (if |d| >= 2 then |d| - 1 else 0) else NibbleAt(d, 2 * m - 1)) * 16 + NibbleAt(d, 2 * m)
  }

  /** The encoding of an integer: its k nibbles take floor(k / 2) + 1 bytes. */
  function EncodeInt(n: nat): (b: seq<byte>)
    requires n < TWO64
    ensures |b| == |Nibbles(n)| / 2 + 1
  {
    Widths();
    NibbleCount(n, 16);
    var d := Nibbles(n);
    seq(|d| / 2 + 1, m requires 0 <= m => PackedByte(d, m))
  }

  /** Nibble `i` of an encoded integer, counted from 1. */
  function Unpacked(b: seq<byte>, i: nat): (x: nat)
    requires i / 2 < |b|
    ensures x < 16
  {
    if i % 2 == 1 then (b[i / 2] as int) % 16 else (b[i / 2] as int) / 16
  }

  /** Nibbles `i` and below, as a number. */
  function ValueFrom(b: seq<byte>, i: nat, n: nat): nat
    requires 1 <= i <= n + 1 && n / 2 < |b|
    decreases n + 1 - i
  {
    if i == n + 1 then 0 else Unpacked(b, i) + 16 * ValueFrom(b, i + 1, n)
  }

  /** decode_int_internal: the number and its length in bytes; None for one that is too long or cut off. */
  function DecodeInt(s: seq<byte>, maxNibbles: nat): (r: Maybe<(nat, nat)>)
    ensures r.Some? ==> 1 <= r.value.1 <= |s| && r.value.1 <= maxNibbles / 2 + 1
  {
    if s == [] then None else
      var nibbles := (s[0] as int) / 16 + 1;
      if nibbles > maxNibbles || nibbles / 2 + 1 > |s| then None
      else Some((ValueFrom(s, 1, nibbles), nibbles / 2 + 1))
  }

  lemma {:induction false} ValueFromNibbles(b: seq<byte>, d: seq<nat>, i: nat, n: nat)
    requires 1 <= i <= n + 1 && n / 2 < |b| && |d| <= n
    requires forall k | 0 <= k < |d| :: d[k] < 16
    requires forall k | 1 <= k <= n :: Unpacked(b, k) == NibbleAt(d, k - 1)
    ensures ValueFrom(b, i, n) == if i - 1 <= |d| then Value(d[i - 1..]) else 0
    decreases n + 1 - i
  {
    if i <= n {
      ValueFromNibbles(b, d, i + 1, n);
      assert Unpacked(b, i) == NibbleAt(d, i - 1);
      if i - 1 < |d| {
        assert d[i - 1..][1..] == d[i..];
      }
    }
  }

  /** The nibbles in the bytes of an encoded integer are its nibbles; bit 4 to 7 of the first byte count them. */
  lemma {:induction false} PackedNibbles(d: seq<nat>, k: nat)
    requires |d| <= 16 && forall i | 0 <= i < |d| :: d[i] < 16
    ensures (PackedByte(d, 0) as int) / 16 + 1 == if |d| >= 1 then |d| else 1
    ensures k >= 1 ==>
              var b := (PackedByte(d, k / 2) as int);
              (if k % 2 == 1 then b % 16 else b / 16) == NibbleAt(d, k - 1)
  {
  }

  lemma {:induction false} EncodedBytes(n: nat)
    requires n < TWO64
    ensures |Nibbles(n)| <= 16 && |EncodeInt(n)| == |Nibbles(n)| / 2 + 1
    ensures forall m | 0 <= m < |EncodeInt(n)| :: EncodeInt(n)[m] == PackedByte(Nibbles(n), m)
  {
    hide Nibbles, Pow16;
    Widths();
    NibbleCount(n, 16);
  }

  /** An integer decodes to itself, whatever follows it. */
  lemma {:induction false} IntRoundTrip(n: nat, rest: seq<byte>, maxNibbles: nat)
    requires n < TWO64 && 1 <= maxNibbles <= 16 && n < Pow16(maxNibbles)
    ensures DecodeInt(EncodeInt(n) + rest, maxNibbles) == Some((n, |EncodeInt(n)|))
  {
    hide Nibbles, Value, ValueFrom, Pow16, EncodeInt, PackedByte, NibbleAt;
    var d, e := Nibbles(n), EncodeInt(n);
    NibbleCount(n, maxNibbles);
    ValueOfNibbles(n);
    EncodedBytes(n);
    var s := e + rest;
    PackedNibbles(d, 0);
    var nibbles := (s[0] as int) / 16 + 1;
    forall k | 1 <= k <= nibbles
      ensures Unpacked(s, k) == NibbleAt(d, k - 1)
    {
      PackedNibbles(d, k);
    }
    ValueFromNibbles(s, d, 1, nibbles);
    assert d[0..] == d;
  }

  // ---------- tags: seven bits a byte, least significant group first ----------

  function EncodeTag(tag: nat): (b: seq<byte>)
    ensures b != []
  {
    if tag < 128 then [tag] else [tag % 128 + 128] + EncodeTag(tag / 128)
  }

  /** decode_tag_internal before the tag is cut to 32 bits: the tag and its length. */
  function DecodeTag(s: seq<byte>): (r: Maybe<(nat, nat)>)
    ensures r.Some? ==> 1 <= r.value.1 <= |s|
  {
    if s == [] then None
    else if s[0] < 128 then Some((s[0], 1))
    else
      var r := DecodeTag(s[1..]);
      if r.None? then None else Some(((s[0] as int) % 128 + 128 * r.value.0, r.value.1 + 1))
  }

  lemma {:induction false} TagRoundTrip(tag: nat, rest: seq<byte>)
    ensures DecodeTag(EncodeTag(tag) + rest) == Some((tag, |EncodeTag(tag)|))
  {
    if tag >= 128 {
      TagRoundTrip(tag / 128, rest);
      assert (EncodeTag(tag) + rest)[1..] == EncodeTag(tag / 128) + rest;
    }
  }

  /** Byte `k` of an encoded tag holds its bits from 7 * k on; all but the last byte are marked. */
  lemma {:induction false} TagGroups(tag: nat, k: nat)
    requires k < |EncodeTag(tag)|
    ensures EncodeTag(tag)[k] as int == tag / Pow128(k) % 128 + if k + 1 < |EncodeTag(tag)| then 128 else 0
  {
    if k > 0 {
      TagGroups(tag / 128, k - 1);
      DivDiv(tag, Pow128(k - 1));
    }
  }

  lemma {:induction false} DivDiv(n: nat, d: nat)
    requires d > 0
    ensures n / 128 / d == n / (128 * d)
  {
    var q, r := n / 128 / d, n / 128 % d;
    assert n / 128 == q * d + r;
    assert n == 128 * (q * d + r) + n % 128;
    var rest := 128 * r + n % 128;
    assert n == (128 * d) * q + rest;
    assert 0 <= rest < 128 * d;
    DivOf(n, 128 * d, q, rest);
  }

  lemma {:induction false} DivOf(n: nat, d: nat, q: nat, rest: nat)
    requires d > 0 && n == d * q + rest && rest < d
    ensures n / d == q
  {
    var m := n / d;
    assert n == d * m + n % d;
    NoGap(d, m, q);
    NoGap(d, q, m);
  }

  lemma {:induction false} NoGap(d: nat, a: nat, b: nat)
    ensures a > b ==> d * a >= d * b + d
  {
    var c := a - b;
    assert d * a == d * b + d * c;
    Multiple(d, c);
  }

  lemma {:induction false} Multiple(d: nat, c: int)
    ensures c > 0 ==> d * c >= d
  {
    if c > 1 {
      Multiple(d, c - 1);
    }
  }

  /** decode_tag_internal: the tag, cut to 32 bits, and its length. */
  function PeekTag(s: seq<byte>): (r: Maybe<(nat, nat)>)
    ensures r.Some? ==> 1 <= r.value.1 <= |s| && r.value.0 < TWO32
  {
    var t := DecodeTag(s);
    if t.None? then None else Some((t.value.0 % TWO32, t.value.1))
  }

  function Pow128(k: nat): (r: nat)
    ensures r >= 1
  {
    if k == 0 then 1 else 128 * Pow128(k - 1)
  }

  lemma {:induction false} TagLength(tag: nat, k: nat)
    requires tag < Pow128(k)
    ensures k > 0 ==> |EncodeTag(tag)| <= k
    decreases k
  {
    if tag >= 128 {
      TagLength(tag / 128, k - 1);
    }
  }

  /** A 32-bit tag takes at most five bytes. */
  lemma {:induction false} TagFits(tag: nat)
    requires tag < TWO32
    ensures |EncodeTag(tag)| <= 5
  {
    assert Pow128(2) == 0x4000;
    assert Pow128(4) == 0x4000 * 0x4000;
    TagLength(tag, 5);
  }

  // ---------- records: tag, length, payload ----------

  /** evtag_marshal */
  function Record(tag: nat, payload: seq<byte>): (b: seq<byte>)
    requires |payload| < TWO32
  {
    EncodeTag(tag) + EncodeInt(|payload|) + payload
  }

  /** Some integers on the wire. */
  lemma {:induction false} IntSamples()
    ensures EncodeInt(0) == [0] && EncodeInt(1) == [1] && EncodeInt(0x123) == [0x23, 0x21]
  {
    assert Nibbles(0) == [] && Nibbles(1) == [1] + Nibbles(0);
    assert Nibbles(0x123) == [3] + Nibbles(0x12) == [3] + ([2] + Nibbles(1));
    hide Nibbles, Pow16;
    EncodedBytes(0);
    EncodedBytes(1);
    EncodedBytes(0x123);
  }

  /** Records with one byte of payload on the wire. */
  lemma {:induction false} RecordSamples(x: byte)
    ensures Record(5, [x]) == [5, 1, x] && Record(200, [x]) == [200, 1, 1, x]
  {
    hide EncodeInt;
    IntSamples();
    assert EncodeTag(1) == [1] && EncodeTag(200) == [200] + EncodeTag(1);
  }

  /** The header of a record: tag, length of the header, length of the payload. */
  function Header(s: seq<byte>): (r: Maybe<(nat, nat, nat)>)
    ensures r.Some? ==> r.value.1 <= |s|
  {
    var t := PeekTag(s);
    if t.None? then None else
      var l := DecodeInt(s[t.value.1..], 8);
      if l.None? then None else Some((t.value.0, t.value.1 + l.value.1, l.value.0))
  }

  /** evtag_unmarshal: tag, payload, and what follows; the payload's length is an int. */
  function Unmarshal(s: seq<byte>): (r: Maybe<(nat, seq<byte>, seq<byte>)>)
    ensures r.Some? ==> |r.value.1| + |r.value.2| < |s|
  {
    var h := Header(s);
    if h.None? || h.value.2 >= TWO31 || |s| - h.value.1 < h.value.2 then None
    else
      assert h.value.1 > 0;
      Some((h.value.0, s[h.value.1..h.value.1 + h.value.2], s[h.value.1 + h.value.2..]))
  }

  lemma {:induction false} HeaderRoundTrip(tag: nat, payload: seq<byte>, rest: seq<byte>)
    requires tag < TWO32 && |payload| < TWO32
    ensures Header(Record(tag, payload) + rest) == Some((tag, |Record(tag, payload)| - |payload|, |payload|))
  {
    hide EncodeTag, EncodeInt, DecodeTag, DecodeInt, Pow16;
    var t, l := EncodeTag(tag), EncodeInt(|payload|);
    var s := Record(tag, payload) + rest;
    Widths();
    assert s == t + (l + payload + rest);
    TagRoundTrip(tag, l + payload + rest);
    assert s[|t|..] == l + (payload + rest);
    IntRoundTrip(|payload|, payload + rest, 8);
  }

  /** A record is unmarshalled to itself, and exactly its bytes are used up. */
  lemma {:induction false} RecordRoundTrip(tag: nat, payload: seq<byte>, rest: seq<byte>)
    requires tag < TWO32 && |payload| < TWO31
    ensures Unmarshal(Record(tag, payload) + rest) == Some((tag, payload, rest))
  {
    hide EncodeTag, EncodeInt, Header;
    HeaderRoundTrip(tag, payload, rest);
    var s, h := Record(tag, payload) + rest, |Record(tag, payload)| - |payload|;
    assert s[h..h + |payload|] == payload && s[h + |payload|..] == rest;
  }

  /** evtag_peek_length: the whole record's size, if it fits 32 bits. */
  lemma {:induction false} PeekLength(tag: nat, payload: seq<byte>, rest: seq<byte>)
    requires tag < TWO32 && |payload| < TWO32
    ensures var h := Header(Record(tag, payload) + rest); h.Some? && h.value.1 + h.value.2 == |Record(tag, payload)|
  {
    HeaderRoundTrip(tag, payload, rest);
  }

  /** A stream of records. */
  function Stream(records: seq<(nat, seq<byte>)>): (s: seq<byte>)
    requires forall i | 0 <= i < |records| :: |records[i].1| < TWO31
  {
    if records == [] then [] else Record(records[0].0, records[0].1) + Stream(records[1..])
  }

  /** The records of a stream. */
  function Records(s: seq<byte>): (r: Maybe<seq<(nat, seq<byte>)>>)
    decreases |s|
  {
    if s == [] then Some([]) else
      var u := Unmarshal(s);
      if u.None? then None else
        var rest := Records(u.value.2);
        if rest.None? then None else Some([(u.value.0, u.value.1)] + rest.value)
  }

  /** Decoding a stream of records gives the records back. */
  lemma {:induction false} StreamRoundTrip(records: seq<(nat, seq<byte>)>)
    requires forall i | 0 <= i < |records| :: records[i].0 < TWO32 && |records[i].1| < TWO31
    ensures Records(Stream(records)) == Some(records)
  {
    hide Record, Unmarshal;
    if records != [] {
      var (tag, payload) := records[0];
      RecordRoundTrip(tag, payload, Stream(records[1..]));
      StreamRoundTrip(records[1..]);
      NotEmpty(tag, payload);
      assert records == [records[0]] + records[1..];
    }
  }

  lemma {:induction false} NotEmpty(tag: nat, payload: seq<byte>)
    requires |payload| < TWO32
    ensures Record(tag, payload) != []
  {
  }

  // ---------- the loops ----------

  /** Byte `m` while only the nibbles in `d` have been written, without the count. */
  function PartByte(d: seq<nat>, m: nat): (b: byte)
    requires forall k | 0 <= k < |d| :: d[k] < 16
  {
    (if m == 0 then 0 else NibbleAt(d, 2 * m - 1)) * 16 + NibbleAt(d, 2 * m)
  }

  /** One nibble more changes one byte. */
  lemma {:induction false} PartStep(d: seq<nat>, x: nat, m: nat)
    requires (forall k | 0 <= k < |d| :: d[k] < 16) && x < 16
    ensures var off := |d| + 1;
            PartByte(d + [x], m) ==
              if m != off / 2 then PartByte(d, m)
              else if off % 2 == 1 then (PartByte(d, m) as int) / 16 * 16 + x
              else (PartByte(d, m) as int) % 16 + x * 16
  {
  }

  /** One nibble written. */
  method PutNibble(data: array<byte>, size: nat, off: nat, x: nat, ghost d: seq<nat>)
    requires off == |d| + 1 && off / 2 < size <= data.Length && x < 16 && forall k | 0 <= k < |d| :: d[k] < 16
    requires forall m | 0 <= m < size :: data[m] == PartByte(d, m)
    modifies data
    ensures forall m | 0 <= m < size :: data[m] == PartByte(d + [x], m)
  {
    hide PartByte;
    forall m | 0 <= m < size
      ensures PartByte(d + [x], m) ==
        if m != off / 2 then PartByte(d, m)
        else if off % 2 == 1 then (PartByte(d, m) as int) / 16 * 16 + x else (PartByte(d, m) as int) % 16 + x * 16
    {
      PartStep(d, x, m);
    }
    if off % 2 == 1 {
      data[off / 2] := (data[off / 2] as int) / 16 * 16 + x;
    } else {
      data[off / 2] := (data[off / 2] as int) % 16 + x * 16;
    }
  }

  /** The count of nibbles in front makes the encoding complete. */
  lemma {:induction false} PackedFromPart(d: seq<nat>, m: nat)
    requires |d| <= 16 && forall k | 0 <= k < |d| :: d[k] < 16
    ensures PackedByte(d, m) == if m == 0 then (PartByte(d, 0) as int) % 16 + (if |d| >= 2 then |d| - 1 else 0) * 16 else PartByte(d, m)
  {
  }

  /** The count of nibbles, after the last of them. */
  method PutCount(data: array<byte>, off: nat, ghost number: nat) returns (len: nat)
    requires number < TWO64 && off == |Nibbles(number)| + 1 && off / 2 < data.Length
    requires forall m | 0 <= m < off / 2 + off % 2 :: data[m] == PartByte(Nibbles(number), m)
    modifies data
    ensures len == (off + 1) / 2 && data[..len] == EncodeInt(number)
  {
    hide Nibbles, PartByte, PackedByte, EncodeInt;
    var nibbles := if off > 2 then off - 2 else 0;
    len := (off + 1) / 2;
    EncodedBytes(number);
    forall m | 0 <= m < len
      ensures EncodeInt(number)[m] ==
        if m == 0 then (data[0] as int) % 16 + nibbles * 16 else data[m]
    {
      PackedFromPart(Nibbles(number), m);
    }
    data[0] := (data[0] as int) % 16 + nibbles * 16;
  }

  /** ENCODE_INT_INTERNAL: the integer goes to the front of `data`, which has room for it. */
  method EncodeIntInternal(data: array<byte>, number: nat, size: nat) returns (len: nat)
    requires (size == 5 && number < TWO32) || (size == 9 && number < TWO64)
    requires size <= data.Length
    modifies data
    ensures len <= size && data[..len] == EncodeInt(number)
  {
    hide Nibbles, PartByte, PackedByte, EncodeInt;
    Widths();
    NibbleCount(number, 2 * size - 2);
    ClearParts();
    forall m | 0 <= m < size {
      data[m] := 0;
    }
    var off: nat, n: nat := 1, number;
    ghost var d: seq<nat> := [];
    assert [] + Nibbles(n) == Nibbles(n);
    while n != 0
      invariant off == |d| + 1 && d + Nibbles(n) == Nibbles(number) && forall k | 0 <= k < |d| :: d[k] < 16
      invariant forall m | 0 <= m < size :: data[m] == PartByte(d, m)
      decreases n
    {
      NibblesStep(n);
      assert d + Nibbles(n) == (d + [n % 16]) + Nibbles(n / 16);
      assert |d| < |Nibbles(number)| && off / 2 < size;
      PutNibble(data, size, off, n % 16, d);
      d, n, off := d + [n % 16], n / 16, off + 1;
    }
    NibblesOfZero();
    assert d == Nibbles(number);
    len := PutCount(data, off, number);
  }

  lemma {:induction false} ClearParts()
    ensures forall m: nat :: PartByte([], m) == 0
  {
  }

  lemma {:induction false} NibblesStep(n: nat)
    requires n > 0
    ensures Nibbles(n) == [n % 16] + Nibbles(n / 16)
  {
  }

  lemma {:induction false} NibblesOfZero()
    ensures Nibbles(0) == []
  {
  }

  /** DECODE_INT_INTERNAL on the bytes from the offset on */
  method DecodeIntInternal(data: seq<byte>, maxNibbles: nat) returns (ok: bool, number: nat, len: nat)
    requires maxNibbles <= 16
    ensures DecodeInt(data, maxNibbles) == if ok then Some((number, len)) else None
    ensures ok ==> number < Pow16(maxNibbles)
  {
    if |data| == 0 {
      return false, 0, 0;
    }
    var nibbles: nat := (data[0] as int) / 16 + 1;
    if nibbles > maxNibbles || nibbles / 2 + 1 > |data| {
      return false, 0, 0;
    }
    len := nibbles / 2 + 1;
    ghost var all := nibbles;
    number := 0;
    while nibbles > 0
      invariant nibbles <= all && number == ValueFrom(data, nibbles + 1, all) && number < Pow16(all - nibbles)
    {
      number := number * 16;
      if nibbles % 2 == 1 {
        number := number + (data[nibbles / 2] as int) % 16;
      } else {
        number := number + (data[nibbles / 2] as int) / 16;
      }
      nibbles := nibbles - 1;
    }
    Pow16Grows(all, maxNibbles);
    ok := true;
  }

  lemma {:induction false} Pow16Grows(a: nat, b: nat)
    requires a <= b
    ensures Pow16(a) <= Pow16(b)
    decreases b
  {
    if a < b {
      Pow16Grows(a, b - 1);
    }
  }

  /** The loop of evtag_encode_tag. */
  method EncodeTagBytes(data: array<byte>, tag: nat) returns (bytes: nat)
    requires tag < TWO32 && data.Length == 5
    modifies data
    ensures bytes <= 5 && data[..bytes] == EncodeTag(tag)
  {
    TagFits(tag);
    bytes := 0;
    var t := tag;
    while t >= 128
      invariant bytes <= 5 && data[..bytes] + EncodeTag(t) == EncodeTag(tag)
      decreases t
    {
      ghost var before := data[..bytes];
      data[bytes] := t % 128 + 128;
      assert data[..bytes + 1] == before + [t % 128 + 128];
      bytes, t := bytes + 1, t / 128;
    }
    ghost var before := data[..bytes];
    data[bytes] := t;
    assert data[..bytes + 1] == before + [t];
    bytes := bytes + 1;
  }

  /** A tag continued: what has been read, and what is still to come. */
  function Continued(number: nat, scale: nat, count: nat, r: Maybe<(nat, nat)>): Maybe<(nat, nat)>
  {
    if r.None? then None else Some((number + scale * r.value.0, count + r.value.1))
  }

  lemma {:induction false} ContinueTag(number: nat, scale: nat, count: nat, s: seq<byte>)
    requires s != []
    ensures Continued(number, scale, count, DecodeTag(s)) ==
      if s[0] < 128 then Some((number + scale * ((s[0] as int) % 128), count + 1))
      else Continued(number + scale * ((s[0] as int) % 128), scale * 128, count + 1, DecodeTag(s[1..]))
  {
    var r := DecodeTag(s[1..]);
    if r.Some? {
      var low: nat, high := (s[0] as int) % 128, r.value.0;
      assert scale * (low + 128 * high) == scale * low + scale * 128 * high;
    }
  }

  /** The loop of decode_tag_internal. */
  method DecodeTagBytes(data: seq<byte>) returns (ok: bool, number: nat, count: nat)
    ensures DecodeTag(data) == if ok then Some((number, count)) else None
  {
    hide DecodeTag;
    var scale: nat := 1;
    number, count, ok := 0, 0, false;
    assert data[0..] == data;
    while count < |data|
      invariant count <= |data| && DecodeTag(data) == Continued(number, scale, count, DecodeTag(data[count..]))
    {
      var lower: int := data[count];
      ContinueTag(number, scale, count, data[count..]);
      assert data[count..][1..] == data[count + 1..];
      number := number + scale * (lower % 128);
      count := count + 1;
      if lower < 128 {
        ok := true;
        return;
      }
      scale := scale * 128;
    }
    NoTag(data[count..]);
  }

  lemma {:induction false} NoTag(s: seq<byte>)
    ensures s == [] ==> DecodeTag(s) == None
  {
  }
}
