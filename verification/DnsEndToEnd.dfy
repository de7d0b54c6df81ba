/**
 The client and the server of evdns.c agree: what one writes, the other reads
 (sections 4.1 and 4.2.1 of RFC 1035).
*/
module DnsEndToEnd {
  import opened Options
  import opened Bytes
  import opened DnsNames
  import opened DnsLabels
  import opened DnsMessages
  import opened DnsParsing

  /** A host name: no empty label but perhaps the last, and at most 255 bytes. */
  predicate HostName(n: seq<byte>)
  {
    NoNul(n) && Proper(n) && |n| <= 255
  }

  /** A host name in a message is parsed, with its closing dot left out. */
  lemma {:induction false} ParsedHostName(p: seq<byte>, j: nat, n: seq<byte>)
    requires HostName(n) && Names(p, j, NameLabels(n))
    ensures Parse(p, j, [], 0, NAME_BUF) == Some(Trim(n))
  {
    hide Parse, NameLabels, Text, Names, Proper;
    RoundTrip(p, j, n);
    TextOfLabels([], n);
    assert [] + Trim(n) == Trim(n);
  }

  lemma {:induction false} NumberAt(p: seq<byte>, j: nat, x: nat)
    requires j + 2 <= |p| && p[j..j + 2] == U16(x) && x < 0x1_0000
    ensures U16At(p, j) == x
  {
    assert p[j] == U16(x)[0] && p[j + 1] == U16(x)[1];
  }

  lemma {:induction false} LongAt(p: seq<byte>, j: nat, x: nat)
    requires j + 4 <= |p| && p[j..j + 4] == U32(x) && x < 0x1_0000_0000
    ensures U32At(p, j) == x
  {
    assert p[j..j + 2] == U32(x)[..2] == U16(x / 0x1_0000);
    assert p[j + 2..j + 4] == U32(x)[2..] == U16(x);
    assert p[j] == p[j..j + 2][0] && p[j + 1] == p[j..j + 2][1];
    assert p[j + 2] == p[j + 2..j + 4][0] && p[j + 3] == p[j + 2..j + 4][1];
  }

  // ---------- the query ----------

  /**
   The client's query: the server reads the name, the type and the class, and the client can read
   its own name back.
  */
  lemma {:induction false} QueryRead(id: u16, name: seq<byte>, typ: u16, cls: u16)
    requires HostName(name) && ShortLabels(name)
    ensures Query(id, name, typ, cls).Coded?
    ensures var q := Query(id, name, typ, cls).bytes;
            && RequestOf(q) == Some(Received(id, 1, 0, [Question(Trim(name), typ, cls)]))
            && Parse(q, 12, [], 0, NAME_BUF) == Some(Trim(name))
  {
    hide Parse, NameLabels, Names, Proper, Code, EndOf, U16At, U16, ShortLabels, CStr, Trim;
    var h := QueryHeader(id);
    CodeEnds(12, RequestLen(|name|), name, None);
    CodeDecodes(h, RequestLen(|name|), name, None);
    var c := Code(12, RequestLen(|name|), name, None).bytes;
    var q := h + c + U16(typ) + U16(cls);
    assert q == (h + c) + (U16(typ) + U16(cls));
    NamesStay(h + c, U16(typ) + U16(cls), 12, NameLabels(name));
    ParsedHostName(q, 12, name);
    QueryHeaderRead(id, q);
    var e := 12 + |c|;
    assert |U16(typ)| == 2 && |U16(cls)| == 2 by { BytesOf(typ); BytesOf(cls); }
    assert q[e..e + 2] == U16(typ) && q[e + 2..e + 4] == U16(cls);
    NumberAt(q, e, typ);
    NumberAt(q, e + 2, cls);
    TrimNoNul(name);
    assert QuestionsOf(q, e + 4, 0) == Some([]);
    var question := Question(Trim(name), typ, cls);
    assert QuestionsOf(q, 12, 1) == Some([question] + []);
    assert [question] + [] == [question];
  }

  lemma {:induction false} BytesOf(x: nat)
    ensures |U16(x)| == 2 && |U32(x)| == 4
  {
  }

  lemma {:induction false} TrimNoNul(name: seq<byte>)
    requires NoNul(name)
    ensures NoNul(Trim(name)) && CStr(Trim(name)) == Trim(name)
  {
    hide CStr;
  }

  lemma {:induction false} QueryHeaderRead(id: u16, q: seq<byte>)
    requires 12 <= |q| && q[..12] == QueryHeader(id)
    ensures U16At(q, 0) == id && q[2] == 1 && q[3] == 0 && U16At(q, 4) == 1
  {
    var h := QueryHeader(id);
    assert q[0] == h[0] && q[1] == h[1] && q[2] == h[2] && q[3] == h[3] && q[4] == h[4] && q[5] == h[5];
  }

  // ---------- resource records ----------

  /** A record that the server can be asked to send to this client. */
  predicate Sendable(i: Item)
  {
    ItemFits(i) && HostName(i.name)
  }

  /** The fixed fields of a record behind its name. */
  ghost predicate FixedAt(p: seq<byte>, e: nat, i: Item)
  {
    && e + 10 <= |p| && U16At(p, e) == i.typ && U16At(p, e + 2) == i.cls && U32At(p, e + 4) == i.ttl
    && e + 10 + U16At(p, e + 8) <= |p|
    && (i.data.Raw? ==> p[e + 10..e + 10 + U16At(p, e + 8)] == i.data.bytes)
    && (i.data.NameData? ==> Names(p, e + 10, NameLabels(i.data.name)))
  }

  /** Record `i` is in the message at `j`. */
  ghost predicate RecordAt(p: seq<byte>, j: nat, i: Item)
  {
    Names(p, j, NameLabels(i.name)) && FixedAt(p, EndOf(p, j), i)
  }

  /** Where a record ends. */
  function RecordEnd(p: seq<byte>, j: nat): nat
  {
    var e := EndOf(p, j);
    if e + 10 <= |p| then e + 10 + U16At(p, e + 8) else e
  }

  ghost predicate RecordsAt(p: seq<byte>, j: nat, items: seq<Item>)
    decreases |items|
  {
    items == [] || (RecordAt(p, j, items[0]) && RecordsAt(p, RecordEnd(p, j), items[1..]))
  }

  function RecordsEnd(p: seq<byte>, j: nat, items: seq<Item>): nat
    decreases |items|
  {
    if items == [] then j else RecordsEnd(p, RecordEnd(p, j), items[1..])
  }

  lemma {:induction false} FixedStays(p: seq<byte>, more: seq<byte>, e: nat, i: Item)
    requires FixedAt(p, e, i)
    ensures FixedAt(p + more, e, i) && U16At(p + more, e + 8) == U16At(p, e + 8)
  {
    hide Names, NameLabels;
    var q := p + more;
    if i.data.NameData? {
      NamesStay(p, more, e + 10, NameLabels(i.data.name));
    }
    assert forall k | 0 <= k < |p| :: q[k] == p[k];
    var d, n := e + 10, U16At(p, e + 8);
    assert q[d..d + n] == p[d..d + n];
  }

  lemma {:induction false} RecordStays(p: seq<byte>, more: seq<byte>, j: nat, i: Item)
    requires RecordAt(p, j, i)
    ensures RecordAt(p + more, j, i) && RecordEnd(p + more, j) == RecordEnd(p, j)
  {
    hide Names, NameLabels, FixedAt, EndOf, U16At;
    NamesStay(p, more, j, NameLabels(i.name));
    FixedStays(p, more, EndOf(p, j), i);
    FixedLong(p, EndOf(p, j), i);
  }

  lemma {:induction false} FixedLong(p: seq<byte>, e: nat, i: Item)
    requires FixedAt(p, e, i)
    ensures e + 10 <= |p|
  {
  }

  lemma {:induction false} RecordsStay(p: seq<byte>, more: seq<byte>, j: nat, items: seq<Item>)
    requires RecordsAt(p, j, items)
    ensures RecordsAt(p + more, j, items) && RecordsEnd(p + more, j, items) == RecordsEnd(p, j, items)
    decreases |items|
  {
    hide RecordAt, RecordEnd;
    if items != [] {
      RecordStays(p, more, j, items[0]);
      RecordsStay(p, more, RecordEnd(p, j), items[1..]);
    }
  }

  // ---------- what the server writes ----------

  /** A draft whose compression table is right. */
  ghost predicate Sound(d: Draft)
  {
    d.Draft? ==> TableOk(d.msg, d.table)
  }

  /** `d2` is `d` with bytes behind it. */
  ghost predicate Extends(d: Draft, d2: Draft)
  {
    d2.Draft? ==> d.Draft? && |d.msg| <= |d2.msg| && d2.msg[..|d.msg|] == d.msg
  }

  lemma {:induction false} BytesSound(d: Draft, b: seq<byte>)
    requires Sound(d)
    ensures Sound(PutBytes(d, b)) && Extends(d, PutBytes(d, b))
    ensures PutBytes(d, b).Draft? ==> PutBytes(d, b).msg == d.msg + b && |PutBytes(d, b).msg| <= RESPONSE_BUF
  {
    if d.Draft? {
      TableStays(d.msg, b, d.table);
    }
  }

  /** A name put into a draft can be read there. */
  lemma {:induction false} NameSound(d: Draft, n: seq<byte>)
    requires Sound(d) && d.Draft?
    ensures Sound(PutName(d, n)) && Extends(d, PutName(d, n))
    ensures PutName(d, n).Draft? ==>
      Names(PutName(d, n).msg, |d.msg|, NameLabels(n)) && |PutName(d, n).msg| > |d.msg|
    ensures PutName(d, n).Draft? && Proper(n) ==> EndOf(PutName(d, n).msg, |d.msg|) == |PutName(d, n).msg|
  {
    hide Code, TableOk, NameLabels, Proper;
    var c := Encode(|d.msg|, RESPONSE_BUF, n, Some(d.table));
    if c.Coded? {
      CodeKeepsTable(d.msg, RESPONSE_BUF, n, d.table);
      NamesInside(d.msg + c.bytes, |d.msg|, NameLabels(n));
    }
  }

  lemma {:induction false} NamesInside(p: seq<byte>, j: nat, ls: seq<seq<byte>>)
    requires Names(p, j, ls)
    ensures j < |p|
  {
  }

  lemma {:induction false} CodeBound(pos: nat, bufLen: nat, name: seq<byte>, t: Maybe<Entries>)
    requires Code(pos, bufLen, name, t).Coded?
    ensures pos + |Code(pos, bufLen, name, t).bytes| <= bufLen + 1
    decreases |name|
  {
    hide Lookup, Remember, Dot;
    CodeCases(pos, bufLen, name, t);
    if !(t.Some? && Lookup(t.value, name).Some?) && Dot(name) < |name| {
      CodeBound(pos + Dot(name) + 1, bufLen, name[Dot(name) + 1..], if t.Some? then Some(Remember(t.value, name, pos)) else None);
    }
  }

  /** The data of a record: its length is that of the bytes behind it. */
  lemma {:induction false} DataSound(d: Draft, data: Data)
    requires Sound(d) && d.Draft? && (data.Raw? ==> |data.bytes| < 0x1_0000)
    ensures var r := PutData(d, data); Sound(r) && Extends(d, r)
    ensures var r := PutData(d, data);
            r.Draft? ==> && |d.msg| + 2 <= |r.msg| && U16At(r.msg, |d.msg|) == |r.msg| - |d.msg| - 2
                         && (data.Raw? ==> r.msg[|d.msg| + 2..] == data.bytes)
                         && (data.NameData? ==> Names(r.msg, |d.msg| + 2, NameLabels(data.name)))
  {
    hide Code, TableOk, NameLabels, U16, U16At;
    var r := PutData(d, data);
    if r.Draft? {
      match data {
      case Raw(b) =>
        BytesOf(|b|);
        TableStays(d.msg, U16(|b|), d.table);
        TableStays(d.msg + U16(|b|), b, d.table);
        NumberAt(r.msg, |d.msg|, |b|);
      case NameData(n) =>
        var c := Encode(|d.msg| + 2, RESPONSE_BUF, n, Some(d.table));
        var l := U16(|c.bytes|);
        BytesOf(|c.bytes|);
        CodeBound(|d.msg| + 2, RESPONSE_BUF, n, Some(d.table));
        TableStays(d.msg, l, d.table);
        CodeKeepsTable(d.msg + l, RESPONSE_BUF, n, d.table);
        NumberAt(r.msg, |d.msg|, |c.bytes|);
      }
    }
  }

  /** The fixed fields are where the client looks for them. */
  lemma {:induction false} FixedSound(d: Draft, i: Item)
    requires Sound(d) && d.Draft?
    ensures var r := PutFixed(d, i); Sound(r) && Extends(d, r)
    ensures var r := PutFixed(d, i);
            r.Draft? ==> |r.msg| == |d.msg| + 8 && U16At(r.msg, |d.msg|) == i.typ && U16At(r.msg, |d.msg| + 2) == i.cls
                         && U32At(r.msg, |d.msg| + 4) == i.ttl
  {
    hide TableOk, U16, U32, U16At, U32At, PutBytes;
    var d1 := PutBytes(d, U16(i.typ));
    var d2 := PutBytes(d1, U16(i.cls));
    var d3 := PutBytes(d2, U32(i.ttl));
    BytesSound(d, U16(i.typ));
    BytesSound(d1, U16(i.cls));
    BytesSound(d2, U32(i.ttl));
    BytesOf(i.typ);
    BytesOf(i.cls);
    BytesOf(i.ttl);
    if d3.Draft? {
      assert d3.msg == d.msg + U16(i.typ) + U16(i.cls) + U32(i.ttl);
      NumberAt(d3.msg, |d.msg|, i.typ);
      NumberAt(d3.msg, |d.msg| + 2, i.cls);
      LongAt(d3.msg, |d.msg| + 4, i.ttl);
    }
  }

  /** The part of a record behind its name, once it is written. */
  lemma {:induction false} TailSound(d: Draft, i: Item)
    requires Sound(d) && d.Draft? && ItemFits(i)
    ensures var r := PutData(PutFixed(d, i), i.data);
            && Sound(r) && Extends(d, r)
            && (r.Draft? ==> FixedAt(r.msg, |d.msg|, i) && |d.msg| + 10 + U16At(r.msg, |d.msg| + 8) == |r.msg|)
  {
    hide TableOk, U16At, U32At, PutFixed, PutData;
    FixedSound(d, i);
    var f := PutFixed(d, i);
    if f.Draft? {
      DataSound(f, i.data);
      var r := PutData(f, i.data);
      if r.Draft? {
        var e := |d.msg|;
        assert r.msg == f.msg + r.msg[|f.msg|..];
        SameFixed(f.msg, r.msg[|f.msg|..], e);
      }
    } else {
      DataStops(f, i.data);
    }
  }

  lemma {:induction false} DataStops(d: Draft, data: Data)
    requires !d.Draft?
    ensures !PutData(d, data).Draft?
  {
  }

  lemma {:induction false} SameFixed(p: seq<byte>, more: seq<byte>, e: nat)
    requires e + 8 == |p|
    ensures U16At(p + more, e) == U16At(p, e) && U16At(p + more, e + 2) == U16At(p, e + 2)
      && U32At(p + more, e + 4) == U32At(p, e + 4)
  {
  }

  /** A record put into a draft can be read there, and ends where the draft ends. */
  lemma {:induction false} ItemSound(d: Draft, i: Item)
    requires Sound(d) && d.Draft? && Sendable(i)
    ensures var r := PutItem(d, i);
            && Sound(r) && Extends(d, r)
            && (r.Draft? ==> RecordAt(r.msg, |d.msg|, i) && RecordEnd(r.msg, |d.msg|) == |r.msg| > |d.msg|)
  {
    hide TableOk, U16At, U32At, PutName, PutFixed, PutData, Names, NameLabels, EndOf, FixedAt, ItemFits, Proper;
    var n := PutName(d, i.name);
    NameSound(d, i.name);
    if n.Draft? {
      TailSound(n, i);
      var r := PutItem(d, i);
      if r.Draft? {
        assert r.msg == n.msg + r.msg[|n.msg|..];
        NamesStay(n.msg, r.msg[|n.msg|..], |d.msg|, NameLabels(i.name));
        FixedLong(r.msg, |n.msg|, i);
      }
    } else {
      FixedStops(n, i);
      DataStops(PutFixed(n, i), i.data);
    }
  }

  lemma {:induction false} FixedStops(d: Draft, i: Item)
    requires !d.Draft?
    ensures !PutFixed(d, i).Draft?
  {
  }

  /** All records of a section can be read, one behind the other, and there are not more of them than bytes. */
  lemma {:induction false} ItemsSound(d: Draft, items: seq<Item>)
    requires Sound(d) && d.Draft? && forall k | 0 <= k < |items| :: Sendable(items[k])
    ensures var r := PutItems(d, items);
            && Sound(r) && Extends(d, r)
            && (r.Draft? ==> RecordsAt(r.msg, |d.msg|, items) && RecordsEnd(r.msg, |d.msg|, items) == |r.msg| >= |d.msg| + |items|)
    decreases |items|
  {
    hide TableOk, PutItem, RecordAt, RecordEnd, Sendable;
    if items != [] {
      var d1 := PutItem(d, items[0]);
      ItemSound(d, items[0]);
      if d1.Draft? {
        ItemsSound(d1, items[1..]);
        var r := PutItems(d, items);
        if r.Draft? {
          assert r.msg == d1.msg + r.msg[|d1.msg|..];
          assert r.msg[..|d.msg|] == r.msg[..|d1.msg|][..|d.msg|];
          RecordStays(d1.msg, r.msg[|d1.msg|..], |d.msg|, items[0]);
        }
      } else {
        ItemsStop(d1, items[1..]);
      }
    }
  }

  // ---------- what the client makes of the records ----------

  /** The size of an address of this type. */
  function AddrSize(want: u16): (size: nat)
    ensures size > 0
  {
    if want == TYPE_A then 4 else 16
  }

  /** The record holds addresses that the request asked for. */
  predicate Wanted(i: Item, want: u16)
  {
    i.typ == want && i.cls == CLASS_INET
  }

  /** The types of record that the resolver asks for. */
  predicate Askable(want: u16)
  {
    want == TYPE_A || want == TYPE_AAAA || want == TYPE_PTR
  }

  /**
   A record as evdns_server_request_add_a_reply and its sisters make it: a whole
   number of addresses, or a host name that the client has room for.
  */
  predicate WellMade(i: Item, want: u16)
  {
    Wanted(i, want) ==>
      if want == TYPE_PTR then i.data.NameData? && HostName(i.data.name) && |Trim(i.data.name)| < HOST_NAME_MAX
      else i.data.Raw? && |i.data.bytes| % AddrSize(want) == 0
  }

  /** The addresses of a record. */
  function AddrsIn(b: seq<byte>, size: nat): (r: seq<seq<byte>>)
    requires size > 0
  {
    if |b| < size then [] else [b[..size]] + AddrsIn(b[size..], size)
  }

  /** All addresses the server sent, in order. */
  function AllAddrs(items: seq<Item>, want: u16): seq<seq<byte>>
    decreases |items|
  {
    if items == [] then []
    else (if Wanted(items[0], want) && items[0].data.Raw? then AddrsIn(items[0].data.bytes, AddrSize(want)) else [])
         + AllAddrs(items[1..], want)
  }

  predicate AnyWanted(items: seq<Item>, want: u16)
  {
    exists k :: 0 <= k < |items| && Wanted(items[k], want)
  }

  /** The least ttl of the records read until there are 32 addresses, `have` of them so far. */
  function LeastTtl(items: seq<Item>, want: u16, have: nat, ttl: u32): u32
    decreases |items|
  {
    if items == [] || have >= MAX_ADDRS then ttl
    else if Wanted(items[0], want) && items[0].data.Raw? then
      LeastTtl(items[1..], want, have + |AddrsIn(items[0].data.bytes, AddrSize(want))|, Min(ttl, items[0].ttl))
    else LeastTtl(items[1..], want, have, ttl)
  }

  function First(s: seq<seq<byte>>, n: nat): seq<seq<byte>>
  {
    if |s| <= n then s else s[..n]
  }

  predicate Size(size: nat)
  {
    size == 4 || size == 16
  }

  lemma {:induction false} AddrCount(b: seq<byte>, size: nat)
    requires Size(size)
    ensures |AddrsIn(b, size)| == |b| / size
    decreases |b|
  {
    if |b| >= size {
      AddrCount(b[size..], size);
      assert size == 4 ==> (|b| - 4) / 4 == |b| / 4 - 1;
      assert size == 16 ==> (|b| - 16) / 16 == |b| / 16 - 1;
    }
  }

  lemma {:induction false} AddrAt(b: seq<byte>, size: nat, k: nat)
    requires Size(size) && size * k + size <= |b|
    ensures k < |AddrsIn(b, size)| && AddrsIn(b, size)[k] == b[size * k..size * k + size]
    decreases k
  {
    if k > 0 {
      assert size * k == size * (k - 1) + size;
      AddrAt(b[size..], size, k - 1);
      var i := size * (k - 1);
      assert b[size..][i..i + size] == b[i + size..i + size + size];
    }
  }

  lemma {:induction false} ChunkAt(p: seq<byte>, j: nat, size: nat, n: nat, k: nat)
    requires j + size * n <= |p| && k < n && Size(size)
    ensures j + size * k + size <= |p| && Chunks(p, j, size, n)[k] == p[j + size * k..j + size * k + size]
    decreases n
  {
    assert size * n == size * (n - 1) + size;
    if k < n - 1 {
      ChunkAt(p, j, size, n - 1, k);
    }
  }

  lemma {:induction false} Slice(p: seq<byte>, d: nat, n: nat, at: nat, size: nat)
    requires d + n <= |p| && at + size <= n
    ensures p[d..d + n][at..at + size] == p[d + at..d + at + size]
  {
    var b := p[d..d + n];
    assert forall k | at <= k < at + size :: b[k] == p[d + k];
  }

  lemma {:induction false} RoomFor(size: nat, k: nat, n: nat)
    requires Size(size) && k < n
    ensures size * k + size <= size * n
  {
  }

  /** What the client copies are the first addresses of the record. */
  lemma {:induction false} ChunksAreAddrs(p: seq<byte>, d: nat, b: seq<byte>, size: nat, n: nat)
    requires Size(size) && d + |b| <= |p| && p[d..d + |b|] == b && n <= |b| / size
    ensures d + size * n <= |p| && n <= |AddrsIn(b, size)| && Chunks(p, d, size, n) == AddrsIn(b, size)[..n]
  {
    hide Chunks, AddrsIn;
    AddrCount(b, size);
    assert size * n <= |b|;
    forall k | 0 <= k < n
      ensures Chunks(p, d, size, n)[k] == AddrsIn(b, size)[k]
    {
      var at := size * k;
      RoomFor(size, k, n);
      ChunkAt(p, d, size, n, k);
      AddrAt(b, size, k);
      Slice(p, d, |b|, at, size);
    }
  }

  /** A record that the request did not ask for is passed over. */
  lemma {:induction false} OtherRead(p: seq<byte>, want: u16, j: nat, i: Item, reply: Reply)
    requires Askable(want) && Sendable(i) && RecordAt(p, j, i) && !Wanted(i, want)
      && |reply.addrs| < MAX_ADDRS
    ensures Answer(p, want, j, reply) == Next(RecordEnd(p, j), reply)
  {
    hide Parse, EndOf, U16At, U32At, NameLabels, Names, Proper, Addresses;
    ParsedHostName(p, j, i.name);
  }

  /** One record with addresses. */
  lemma {:induction false} WantedRead(p: seq<byte>, want: u16, j: nat, i: Item, reply: Reply)
    requires (want == TYPE_A || want == TYPE_AAAA) && Sendable(i) && RecordAt(p, j, i) && |reply.addrs| < MAX_ADDRS
    requires Wanted(i, want) && WellMade(i, want)
    ensures var all := reply.addrs + AddrsIn(i.data.bytes, AddrSize(want));
            var reply' := Reply(true, First(all, MAX_ADDRS), reply.ptr, Min(reply.ttl, i.ttl));
            Answer(p, want, j, reply) == if |all| >= MAX_ADDRS then Enough(reply') else Next(RecordEnd(p, j), reply')
  {
    hide Parse, EndOf, U16At, U32At, NameLabels, Names, Proper, AddrsIn, Chunks;
    ParsedHostName(p, j, i.name);
    var e, b, size := EndOf(p, j), i.data.bytes, AddrSize(want);
    var addrs := AddrsIn(b, size);
    AddrCount(b, size);
    var n := Min(MAX_ADDRS - |reply.addrs|, |b| / size);
    ChunksAreAddrs(p, e + 10, b, size, n);
    assert U16At(p, e + 8) == |b|;
    assert First(reply.addrs + addrs, MAX_ADDRS) == reply.addrs + addrs[..n];
    WholeSize(|b|, size);
  }

  lemma {:induction false} WholeSize(n: nat, size: nat)
    requires Size(size) && n % size == 0
    ensures size * (n / size) == n
  {
  }

  lemma {:induction false} FirstJoins(a: seq<seq<byte>>, b: seq<seq<byte>>, c: seq<seq<byte>>)
    ensures |a + b| >= MAX_ADDRS ==> First(a + (b + c), MAX_ADDRS) == First(a + b, MAX_ADDRS)
    ensures |a + b| < MAX_ADDRS ==> First(First(a + b, MAX_ADDRS) + c, MAX_ADDRS) == First(a + (b + c), MAX_ADDRS)
  {
    assert (a + b) + c == a + (b + c);
  }

  /** The client's loop over the answers collects the first 32 addresses, in order, and the least ttl. */
  lemma {:induction false} AnswersRead(p: seq<byte>, want: u16, j: nat, items: seq<Item>, reply: Reply)
    requires (want == TYPE_A || want == TYPE_AAAA) && RecordsAt(p, j, items) && |reply.addrs| < MAX_ADDRS
    requires forall k | 0 <= k < |items| :: Sendable(items[k]) && WellMade(items[k], want)
    ensures var s := Answers(p, want, j, |items|, reply);
            && !s.Wrong? && (s.Next? ==> s.j == RecordsEnd(p, j, items)) && (s.Enough? ==> s.reply.haveAnswer)
            && s.reply.addrs == First(reply.addrs + AllAddrs(items, want), MAX_ADDRS)
            && s.reply.ttl == LeastTtl(items, want, |reply.addrs|, reply.ttl)
            && s.reply.ptr == reply.ptr && (s.reply.haveAnswer <==> reply.haveAnswer || AnyWanted(items, want))
    decreases |items|
  {
    hide Answer, RecordAt, RecordEnd, Sendable, AddrsIn;
    if items == [] {
      assert reply.addrs + [] == reply.addrs;
      return;
    }
    var i, rest := items[0], items[1..];
    assert AnyWanted(items, want) <==> Wanted(i, want) || AnyWanted(rest, want) by { AnyFirst(items, want); }
    if Wanted(i, want) {
      WantedRead(p, want, j, i, reply);
      var these := AddrsIn(i.data.bytes, AddrSize(want));
      FirstJoins(reply.addrs, these, AllAddrs(rest, want));
      var reply' := Reply(true, First(reply.addrs + these, MAX_ADDRS), reply.ptr, Min(reply.ttl, i.ttl));
      if |reply.addrs + these| >= MAX_ADDRS {
        TtlDone(rest, want, |reply.addrs + these|, reply'.ttl);
      } else {
        AnswersRead(p, want, RecordEnd(p, j), rest, reply');
      }
    } else {
      OtherRead(p, want, j, i, reply);
      AnswersRead(p, want, RecordEnd(p, j), rest, reply);
      assert [] + AllAddrs(rest, want) == AllAddrs(rest, want);
    }
  }

  /** A pointer record that was asked for ends the search. */
  lemma {:induction false} PtrRead(p: seq<byte>, j: nat, i: Item, reply: Reply)
    requires Sendable(i) && RecordAt(p, j, i) && Wanted(i, TYPE_PTR) && WellMade(i, TYPE_PTR)
      && |reply.addrs| <= MAX_ADDRS
    ensures Answer(p, TYPE_PTR, j, reply) == Enough(Reply(true, reply.addrs, Trim(i.data.name), Min(reply.ttl, i.ttl)))
  {
    hide Parse, EndOf, U16At, U32At, NameLabels, Names, Proper, Addresses, Trim;
    ParsedHostName(p, j, i.name);
    PtrName(p, EndOf(p, j) + 10, i.data.name);
  }

  /** A host name is parsed into a shorter memory, too, if it fits. */
  lemma {:induction false} PtrName(p: seq<byte>, j: nat, n: seq<byte>)
    requires HostName(n) && Names(p, j, NameLabels(n)) && |Trim(n)| < HOST_NAME_MAX
    ensures Parse(p, j, [], 0, HOST_NAME_MAX) == Some(Trim(n))
  {
    hide Parse, NameLabels, Text, Proper, NameAt;
    TextOfLabels([], n);
    assert [] + Trim(n) == Trim(n);
    assert Holds(p, j, Trim(n)) by {
      var h: nat :| NameAt(p, j, NameLabels(n), h);
    }
    ParseIsName(p, j, HOST_NAME_MAX, Trim(n));
  }

  /** The first record that was asked for. */
  function FirstWanted(items: seq<Item>, want: u16): (k: nat)
    requires AnyWanted(items, want)
    ensures k < |items| && Wanted(items[k], want) && forall i | 0 <= i < k :: !Wanted(items[i], want)
  {
    AnyFirst(items, want);
    if Wanted(items[0], want) then 0 else
      var k := FirstWanted(items[1..], want);
      assert forall i | 0 < i <= k :: items[i] == items[1..][i - 1];
      k + 1
  }

  /** The client takes the name of the first pointer record. */
  lemma {:induction false} PtrAnswersRead(p: seq<byte>, j: nat, items: seq<Item>, reply: Reply)
    requires RecordsAt(p, j, items) && |reply.addrs| < MAX_ADDRS
    requires forall k | 0 <= k < |items| :: Sendable(items[k]) && WellMade(items[k], TYPE_PTR)
    ensures !AnyWanted(items, TYPE_PTR) ==>
      Answers(p, TYPE_PTR, j, |items|, reply) == Next(RecordsEnd(p, j, items), reply)
    ensures AnyWanted(items, TYPE_PTR) ==>
      var i := items[FirstWanted(items, TYPE_PTR)];
      && i.data.NameData?
      && Answers(p, TYPE_PTR, j, |items|, reply)
         == Enough(Reply(true, reply.addrs, Trim(i.data.name), Min(reply.ttl, i.ttl)))
    decreases |items|
  {
    hide Answer, RecordAt, RecordEnd, Sendable, Trim;
    if items != [] {
      var i, rest := items[0], items[1..];
      AnyFirst(items, TYPE_PTR);
      if Wanted(i, TYPE_PTR) {
        PtrRead(p, j, i, reply);
      } else {
        OtherRead(p, TYPE_PTR, j, i, reply);
        PtrAnswersRead(p, RecordEnd(p, j), rest, reply);
      }
    }
  }

  // ---------- the authority section ----------

  /** A name as it is written without compression. */
  function Plain(n: seq<byte>): seq<byte>
  {
    var c := Code(0, |n| + 2, n, None);
    if c.Coded? then c.bytes else []
  }

  lemma {:induction false} CodeMoves(pos: nat, bufLen: nat, n: seq<byte>)
    requires ShortLabels(n) && pos + |n| + 2 <= bufLen
    ensures Code(pos, bufLen, n, None) == Code(0, |n| + 2, n, None) && Code(pos, bufLen, n, None).Coded?
    decreases |n|
  {
    hide Dot;
    var d := Dot(n);
    if d < |n| {
      var rest := n[d + 1..];
      CodeMoves(pos + d + 1, bufLen, rest);
      CodeMoves(d + 1, |n| + 2, rest);
    }
  }

  /** A name written without compression can be read. */
  lemma {:induction false} PlainRead(p: seq<byte>, j: nat, n: seq<byte>)
    requires HostName(n) && ShortLabels(n) && j + |Plain(n)| <= |p| && p[j..j + |Plain(n)|] == Plain(n)
    ensures Parse(p, j, [], 0, NAME_BUF).Some? && EndOf(p, j) == j + |Plain(n)|
  {
    hide Parse, EndOf, Names, NameLabels, Code, Proper, ShortLabels;
    var before, e := p[..j], j + |Plain(n)|;
    CodeMoves(j, j + |n| + 2, n);
    CodeDecodes(before, j + |n| + 2, n, None);
    assert p == (before + Plain(n)) + p[e..];
    NamesStay(before + Plain(n), p[e..], j, NameLabels(n));
    ParsedHostName(p, j, n);
  }

  /** The data of an SOA record: two names, and five numbers (section 3.3.13 of RFC 1035). */
  ghost predicate SoaData(b: seq<byte>)
  {
    exists m, r, t | HostName(m) && ShortLabels(m) && HostName(r) && ShortLabels(r) && |t| == 20 :: b == Plain(m) + Plain(r) + t
  }

  predicate IsSoa(i: Item)
  {
    i.typ == TYPE_SOA && i.cls == CLASS_INET
  }

  ghost predicate SoaMade(items: seq<Item>)
  {
    forall k | 0 <= k < |items| && IsSoa(items[k]) :: items[k].data.Raw? && SoaData(items[k].data.bytes)
  }

  /** The least ttl that the SOA records give for an answer that is not there: their own, and their last number. */
  function SoaTtl(items: seq<Item>, ttl: u32): u32
    decreases |items|
  {
    if items == [] then ttl
    else if IsSoa(items[0]) && items[0].data.Raw? && |items[0].data.bytes| >= 4 then
      SoaTtl(items[1..], Min(Min(ttl, items[0].ttl), U32At(items[0].data.bytes, |items[0].data.bytes| - 4)))
    else SoaTtl(items[1..], ttl)
  }

  /** The two names and the last number of an SOA record. */
  lemma {:induction false} SoaNames(p: seq<byte>, d: nat, b: seq<byte>)
    requires SoaData(b) && d + |b| <= |p| && p[d..d + |b|] == b
    ensures var e1 := EndOf(p, d);
            var e2 := EndOf(p, e1);
            && Parse(p, d, [], 0, NAME_BUF).Some? && Parse(p, e1, [], 0, NAME_BUF).Some?
            && e2 + 20 == d + |b| && |b| >= 20 && U32At(p, e2 + 16) == U32At(b, |b| - 4)
  {
    hide Parse, EndOf, U32At, Plain, ShortLabels, HostName;
    var m, r, t :| HostName(m) && ShortLabels(m) && HostName(r) && ShortLabels(r) && |t| == 20 && b == Plain(m) + Plain(r) + t;
    Slice(p, d, |b|, 0, |Plain(m)|);
    Slice(p, d, |b|, |Plain(m)|, |Plain(r)|);
    assert b[0..|Plain(m)|] == Plain(m) && b[|Plain(m)|..|Plain(m)| + |Plain(r)|] == Plain(r);
    PlainRead(p, d, m);
    PlainRead(p, d + |Plain(m)|, r);
    LastNumber(p, d, b);
  }

  lemma {:induction false} AuthoritySoa(p: seq<byte>, j: nat, n: nat, ttl: u32)
    requires n > 0 && Parse(p, j, [], 0, NAME_BUF).Some?
    requires var e := EndOf(p, j); e + 10 <= |p| && U16At(p, e) == TYPE_SOA && U16At(p, e + 2) == CLASS_INET
    requires var e1 := EndOf(p, EndOf(p, j) + 10);
             && Parse(p, EndOf(p, j) + 10, [], 0, NAME_BUF).Some? && Parse(p, e1, [], 0, NAME_BUF).Some?
             && EndOf(p, e1) + 20 <= |p|
    ensures var e := EndOf(p, j);
            var e2 := EndOf(p, EndOf(p, e + 10));
            Authority(p, j, n, ttl) == Authority(p, e2 + 20, n - 1, Min(Min(ttl, U32At(p, e + 4)), U32At(p, e2 + 16)))
  {
    hide Parse, EndOf, U16At, U32At;
  }

  /** One SOA record. */
  lemma {:induction false} SoaRead(p: seq<byte>, j: nat, i: Item, n: nat, ttl: u32)
    requires Sendable(i) && RecordAt(p, j, i) && IsSoa(i) && i.data.Raw? && SoaData(i.data.bytes) && n > 0
    ensures |i.data.bytes| >= 20
    ensures Authority(p, j, n, ttl) ==
      Authority(p, RecordEnd(p, j), n - 1, Min(Min(ttl, i.ttl), U32At(i.data.bytes, |i.data.bytes| - 4)))
  {
    hide Parse, EndOf, U16At, U32At, Names, NameLabels, SoaData, Sendable, Authority;
    ParsedName(p, j, i);
    SoaNames(p, EndOf(p, j) + 10, i.data.bytes);
    AuthoritySoa(p, j, n, ttl);
  }

  lemma {:induction false} ParsedName(p: seq<byte>, j: nat, i: Item)
    requires Sendable(i) && RecordAt(p, j, i)
    ensures Parse(p, j, [], 0, NAME_BUF).Some?
  {
    hide Parse, Names, NameLabels, FixedAt;
    ParsedHostName(p, j, i.name);
  }

  lemma {:induction false} LastNumber(p: seq<byte>, d: nat, b: seq<byte>)
    requires d + |b| <= |p| && p[d..d + |b|] == b && |b| >= 4
    ensures U32At(p, d + |b| - 4) == U32At(b, |b| - 4)
  {
    assert forall k | 0 <= k < |b| :: p[d + k] == b[k];
  }

  /** The client's walk over the authority section takes the least ttl of its SOA records. */
  lemma {:induction false} AuthorityRead(p: seq<byte>, j: nat, items: seq<Item>, ttl: u32)
    requires RecordsAt(p, j, items) && SoaMade(items) && forall k | 0 <= k < |items| :: Sendable(items[k])
    ensures Authority(p, j, |items|, ttl) == Some(SoaTtl(items, ttl))
    decreases |items|
  {
    hide RecordAt, RecordEnd, Sendable, SoaData, IsSoa, U32At, Authority;
    if items == [] {
      NoAuthority(p, j, ttl);
    } else {
      var i, rest := items[0], items[1..];
      assert forall k | 0 <= k < |rest| :: rest[k] == items[k + 1];
      if IsSoa(i) {
        SoaRead(p, j, i, |items|, ttl);
        AuthorityRead(p, RecordEnd(p, j), rest, Min(Min(ttl, i.ttl), U32At(i.data.bytes, |i.data.bytes| - 4)));
      } else {
        NoSoaRead(p, j, i, |items|, ttl);
        AuthorityRead(p, RecordEnd(p, j), rest, ttl);
      }
    }
  }

  lemma {:induction false} NoAuthority(p: seq<byte>, j: nat, ttl: u32)
    ensures Authority(p, j, 0, ttl) == Some(ttl)
  {
  }

  lemma {:induction false} NoSoaRead(p: seq<byte>, j: nat, i: Item, n: nat, ttl: u32)
    requires Sendable(i) && RecordAt(p, j, i) && !IsSoa(i) && n > 0
    ensures Authority(p, j, n, ttl) == Authority(p, RecordEnd(p, j), n - 1, ttl)
  {
    hide Parse, EndOf, U16At, U32At, Names, NameLabels;
    ParsedName(p, j, i);
  }

  lemma {:induction false} TtlDone(items: seq<Item>, want: u16, have: nat, ttl: u32)
    requires have >= MAX_ADDRS
    ensures LeastTtl(items, want, have, ttl) == ttl
  {
  }

  lemma {:induction false} AnyFirst(items: seq<Item>, want: u16)
    requires items != []
    ensures AnyWanted(items, want) <==> Wanted(items[0], want) || AnyWanted(items[1..], want)
  {
    if AnyWanted(items, want) && !Wanted(items[0], want) {
      var k :| 0 <= k < |items| && Wanted(items[k], want);
      assert items[1..][k - 1] == items[k];
    }
    if AnyWanted(items[1..], want) {
      var k :| 0 <= k < |items[1..]| && Wanted(items[1..][k], want);
      assert items[k + 1] == items[1..][k];
    }
  }

  // ---------- the question comes back ----------

  /** A name without its closing dot has the same labels. */
  lemma {:induction false} TrimLabels(n: seq<byte>)
    requires Proper(n) && ShortLabels(n)
    ensures NameLabels(Trim(n)) == NameLabels(n) && Proper(Trim(n)) && ShortLabels(Trim(n)) && |Trim(n)| <= |n|
    decreases |n|
  {
    hide Dot, Trim;
    var d := Dot(n);
    if d == |n| {
      TrimNoDot(n);
    } else {
      var rest := n[d + 1..];
      TrimSplit(n, d);
      TrimLabels(rest);
      if rest == [] {
        DotOf(n[..d], []);
      } else {
        DotOf(n[..d], [DOT] + Trim(rest));
        assert n[..d] + [DOT] + Trim(rest) == n[..d] + ([DOT] + Trim(rest));
        assert Trim(n)[d + 1..] == Trim(rest);
        TrimNotEmpty(rest);
      }
    }
  }

  lemma {:induction false} TrimNotEmpty(n: seq<byte>)
    requires Proper(n) && n != []
    ensures Trim(n) != []
  {
  }

  lemma {:induction false} DotOf(a: seq<byte>, b: seq<byte>)
    requires DOT !in a && (b == [] || b[0] == DOT)
    ensures Dot(a + b) == |a| && (a + b)[..|a|] == a
    decreases |a|
  {
    if a == [] {
      assert a + b == b;
    } else {
      assert (a + b)[1..] == a[1..] + b;
      DotOf(a[1..], b);
    }
  }

  /** With two bytes to spare, a name with short labels is always encoded. */
  lemma {:induction false} CodeFits(pos: nat, bufLen: nat, name: seq<byte>, t: Maybe<Entries>)
    requires ShortLabels(name) && pos + |name| + 2 <= bufLen
    ensures Code(pos, bufLen, name, t).Coded?
    decreases |name|
  {
    hide Lookup, Remember, Dot;
    if !(t.Some? && Lookup(t.value, name).Some?) && Dot(name) < |name| {
      CodeFits(pos + Dot(name) + 1, bufLen, name[Dot(name) + 1..], if t.Some? then Some(Remember(t.value, name, pos)) else None);
    }
  }

  /** A response starts with the question that the query asked. */
  lemma {:induction false} QuestionSound(header: seq<byte>, name: seq<byte>, typ: u16, cls: u16)
    requires |header| == 12 && HostName(name) && ShortLabels(name)
    ensures var d := PutQuestions(Draft(header, []), [Question(Trim(name), typ, cls)]);
            && d.Draft? && Sound(d) && 12 <= |d.msg| && d.msg[..12] == header
            && Names(d.msg, 12, NameLabels(name)) && EndOf(d.msg, 12) + 4 == |d.msg|
  {
    hide Code, NameLabels, Proper, ShortLabels, Trim, Names, EndOf, PutBytes, U16;
    var d0, n := Draft(header, []), Trim(name);
    TrimLabels(name);
    CodeFits(12, RESPONSE_BUF, n, Some([]));
    NameSound(d0, n);
    var d1 := PutName(d0, n);
    EncodeTable(12, RESPONSE_BUF, n, []);
    NameRoom(n, []);
    BytesFit(d1, U16(typ));
    var d2 := PutBytes(d1, U16(typ));
    BytesFit(d2, U16(cls));
    BytesOf(typ);
    BytesOf(cls);
    PutRoom(d1, U16(typ));
    PutRoom(d2, U16(cls));
    BytesSound(d1, U16(typ));
    BytesSound(d2, U16(cls));
    var d3 := PutBytes(d2, U16(cls));
    NamesStay(d1.msg, U16(typ), 12, NameLabels(name));
    NamesStay(d2.msg, U16(cls), 12, NameLabels(name));
    assert d3.msg[..12] == d1.msg[..12];
    assert PutQuestions(d0, [Question(n, typ, cls)]) == d3;
  }

  lemma {:induction false} PutRoom(d: Draft, b: seq<byte>)
    requires d.Draft? && |d.msg| + |b| <= RESPONSE_BUF
    ensures PutBytes(d, b).Draft?
  {
  }

  lemma {:induction false} NameRoom(n: seq<byte>, t: Entries)
    requires |n| <= 255 && Code(12, RESPONSE_BUF, n, Some(t)).Coded?
    ensures 12 + |Code(12, RESPONSE_BUF, n, Some(t)).bytes| <= 12 + |n| + 2
  {
    CodeSmall(12, RESPONSE_BUF, n, Some(t));
  }

  lemma {:induction false} CodeSmall(pos: nat, bufLen: nat, name: seq<byte>, t: Maybe<Entries>)
    requires Code(pos, bufLen, name, t).Coded?
    ensures |Code(pos, bufLen, name, t).bytes| <= |name| + 2
    decreases |name|
  {
    hide Lookup, Remember, Dot;
    CodeCases(pos, bufLen, name, t);
    if !(t.Some? && Lookup(t.value, name).Some?) && Dot(name) < |name| {
      CodeSmall(pos + Dot(name) + 1, bufLen, name[Dot(name) + 1..], if t.Some? then Some(Remember(t.value, name, pos)) else None);
    }
  }

  /** The client finds its own question in the response. */
  lemma {:induction false} QuestionMatches(p: seq<byte>, query: seq<byte>, name: seq<byte>, matchCase: bool)
    requires HostName(name) && Names(p, 12, NameLabels(name)) && EndOf(p, 12) + 4 <= |p|
    requires Parse(query, 12, [], 0, NAME_BUF) == Some(Trim(name))
    ensures ReplyQuestions(p, query, 12, 1, false, matchCase) == Some((EndOf(p, 12) + 4, true))
  {
    hide Parse, Names, NameLabels, EndOf, CStr, Trim, Proper;
    ParsedHostName(p, 12, name);
    assert ReplyQuestions(p, query, EndOf(p, 12) + 4, 0, true, matchCase) == Some((EndOf(p, 12) + 4, true));
  }

  // ---------- the two ends together ----------

  /** The header of a response without an error, as the client reads it. */
  lemma {:induction false} HeaderRead(p: seq<byte>, id: u16, hi: byte, lo: byte, a: nat, b: nat, c: nat)
    requires 12 <= |p| && p[..12] == ResponseHeader(id, hi, lo, 0, (1, a, b, c))
      && a < 0x1_0000 && b < 0x1_0000 && c < 0x1_0000
    ensures U16At(p, 0) == id && p[2] == Or80(hi) && p[3] == lo && U16At(p, 4) == 1 && U16At(p, 6) == a
      && U16At(p, 8) == b && U16At(p, 10) == c
  {
    var h := ResponseHeader(id, hi, lo, 0, (1, a, b, c));
    assert forall k | 0 <= k < 12 :: p[k] == h[k];
  }

  /** The header and the whole message of the response to a request, with flags and records as the server sets them. */
  function AnswerHeader(got: Received, hi: byte, lo: byte, answer: seq<Item>, authority: seq<Item>,
      additional: seq<Item>): (h: seq<byte>)
    ensures |h| == 12
  {
    ResponseHeader(got.id, hi, lo, 0, (|got.questions|, |answer|, |authority|, |additional|))
  }

  function Answered(got: Received, hi: byte, lo: byte, answer: seq<Item>, authority: seq<Item>,
      additional: seq<Item>): Draft
  {
    var d := PutQuestions(Draft(AnswerHeader(got, hi, lo, answer, authority, additional), []), got.questions);
    PutItems(PutItems(PutItems(d, answer), authority), additional)
  }

  /** The flags leave the truncation and error bits alone. */
  predicate CleanFlags(hi: byte, lo: byte)
  {
    hi / 2 % 2 == 0 && lo % 16 == 0
  }

  /** All records can be sent; those of the requested type hold addresses, or a name. */
  predicate GoodRecords(items: seq<Item>, want: u16)
  {
    forall k | 0 <= k < |items| :: Sendable(items[k]) && WellMade(items[k], want)
  }

  /** The request as the server receives it. */
  function Asked(id: u16, name: seq<byte>, typ: u16): Received
  {
    Received(id, 1, 0, [Question(Trim(name), typ, CLASS_INET)])
  }

  /** Records of two sections, one behind the other. */
  lemma {:induction false} RecordsSplit(p: seq<byte>, j: nat, a: seq<Item>, b: seq<Item>)
    requires RecordsAt(p, j, a + b)
    ensures RecordsAt(p, j, a) && RecordsAt(p, RecordsEnd(p, j, a), b)
    decreases |a|
  {
    hide RecordAt, RecordEnd;
    if a == [] {
      assert a + b == b;
    } else {
      assert (a + b)[1..] == a[1..] + b;
      RecordsSplit(p, RecordEnd(p, j), a[1..], b);
    }
  }

  /** A message that fits is laid out as the client expects: counts, question, and the records of all sections. */
  lemma {:induction false} MessageRead(id: u16, hi: byte, lo: byte, name: seq<byte>, typ: u16,
      answer: seq<Item>, authority: seq<Item>, additional: seq<Item>) returns (j: nat)
    requires HostName(name) && ShortLabels(name)
    requires forall k | 0 <= k < |answer + authority + additional| :: Sendable((answer + authority + additional)[k])
    requires Answered(Asked(id, name, typ), hi, lo, answer, authority, additional).Draft?
    ensures var p := Answered(Asked(id, name, typ), hi, lo, answer, authority, additional).msg;
            && 12 + |answer| + |authority| + |additional| <= |p|
            && p[..12] == ResponseHeader(id, hi, lo, 0, (1, |answer|, |authority|, |additional|))
            && Names(p, 12, NameLabels(name)) && j == EndOf(p, 12) + 4 <= |p|
            && RecordsAt(p, j, answer + authority + additional)
  {
    hide Trim, TableOk, RecordsAt, RecordsEnd, Sendable, PutItems, PutQuestions, EndOf, Names, NameLabels;
    var header := ResponseHeader(id, hi, lo, 0, (1, |answer|, |authority|, |additional|));
    var all := answer + authority + additional;
    QuestionSound(header, name, typ, CLASS_INET);
    var d1 := PutQuestions(Draft(header, []), Asked(id, name, typ).questions);
    ItemsBoth(d1, answer, authority);
    ItemsBoth(d1, answer + authority, additional);
    ItemsSound(d1, all);
    var d4 := PutItems(d1, all);
    assert d4.msg[..12] == d4.msg[..|d1.msg|][..12] == header;
    assert d4.msg == d1.msg + d4.msg[|d1.msg|..];
    NamesStay(d1.msg, d4.msg[|d1.msg|..], 12, NameLabels(name));
    j := |d1.msg|;
  }

  /** A ttl that was never set is passed on as 0. */
  function Shown(ttl: u32): u32
  {
    if ttl == NO_TTL then 0 else ttl
  }

  /** What the client must be told about a response to a request for type `typ`. */
  ghost predicate Told(o: Outcome, d: Draft, typ: u16, answer: seq<Item>, authority: seq<Item>)
  {
    if !d.Draft? || |d.msg| > UDP_MAX then !o.Ignored? && Verdict(o) == DNS_ERR_TRUNCATED
    else if !AnyWanted(answer, typ) then
      SoaMade(authority) ==>
        && o.Handled? && Verdict(o) == DNS_ERR_NODATA && o.reply.addrs == [] && o.reply.ptr == []
        && o.ttl == Shown(SoaTtl(authority, NO_TTL))
    else
      && o.Handled? && Verdict(o) == DNS_ERR_NONE
      && if typ == TYPE_PTR then
           var i := answer[FirstWanted(answer, typ)];
           i.data.NameData? && o.reply.ptr == Trim(i.data.name) && o.reply.addrs == [] && o.ttl == Shown(i.ttl)
         else
           && o.reply.addrs == First(AllAddrs(answer, typ), MAX_ADDRS) && o.reply.ptr == []
           && o.ttl == Shown(LeastTtl(answer, typ, 0, NO_TTL))
  }

  /**
   A query and its response, end to end.  The server's message about the
   question it received either fits 512 bytes, and the client gets the first
   32 addresses in the order sent and the least ttl, or the name of the first
   pointer record and its ttl (or learns that there are none, and for how long
   that is so), or it does not, and the client learns that it was truncated.
  */
  lemma {:induction false} EndToEnd(id: u16, name: seq<byte>, typ: u16, query: seq<byte>, got: Received, hi: byte,
      lo: byte,
      answer: seq<Item>, authority: seq<Item>, additional: seq<Item>,
      resp: seq<byte>, inflight: map<u16, Pending>, matchCase: bool)
    requires HostName(name) && ShortLabels(name) && Askable(typ)
    requires Query(id, name, typ, CLASS_INET) == Coded(query, None) && RequestOf(query) == Some(got)
    requires CleanFlags(hi, lo) && GoodRecords(answer, typ) && GoodRecords(authority, typ)
      && GoodRecords(additional, typ)
    requires IsResponse(AnswerHeader(got, hi, lo, answer, authority, additional),
                        Answered(got, hi, lo, answer, authority, additional), resp)
    requires id in inflight && inflight[id] == Pending(query, typ)
    ensures Told(ReplyOf(resp, inflight, matchCase), Answered(got, hi, lo, answer, authority, additional), typ, answer, authority)
  {
    hide Trim, Query, RequestOf, PutQuestions, PutItems, ResponseHeader, ReplyQuestions, Answers, RecordsAt;
    hide AllAddrs, LeastTtl, EndOf, Names, NameLabels, Parse, Sendable, ReplyBody, Told, RecordsEnd, WellMade;
    QueryRead(id, name, typ, CLASS_INET);
    var d := Answered(got, hi, lo, answer, authority, additional);
    if d.Draft? && |d.msg| <= UDP_MAX {
      var p := d.msg;
      var j := MessageRead(id, hi, lo, name, typ, answer, authority, additional);
      HeaderRead(p, id, hi, lo, |answer|, |authority|, |additional|);
      QuestionMatches(p, query, name, matchCase);
      RecordsSplit(p, j, answer + authority, additional);
      RecordsSplit(p, j, answer, authority);
      BodyTold(p, inflight[id], j, answer, authority, d);
    } else {
      TruncatedHeader(resp, id, hi, lo, |answer|, |authority|, |additional|);
      CutTold(ReplyOf(resp, inflight, matchCase), d, typ, answer, authority);
    }
  }

  lemma {:induction false} CutTold(o: Outcome, d: Draft, typ: u16, answer: seq<Item>, authority: seq<Item>)
    requires !d.Draft? || |d.msg| > UDP_MAX
    requires !o.Ignored? && Verdict(o) == DNS_ERR_TRUNCATED
    ensures Told(o, d, typ, answer, authority)
  {
  }

  /** What the client makes of the sections behind the question. */
  lemma {:induction false} BodyTold(p: seq<byte>, req: Pending, j: nat, answer: seq<Item>, authority: seq<Item>,
      d: Draft)
    requires 12 <= |p| <= UDP_MAX && U16At(p, 6) == |answer| && U16At(p, 8) == |authority| && Askable(req.typ)
    requires d.Draft? && d.msg == p && GoodRecords(answer, req.typ) && GoodRecords(authority, req.typ)
    requires RecordsAt(p, j, answer) && RecordsAt(p, RecordsEnd(p, j, answer), authority) && CleanFlags(p[2], p[3])
    ensures Told(ReplyBody(p, req, j), d, req.typ, answer, authority)
  {
    hide Answers, RecordsAt, RecordsEnd, AllAddrs, LeastTtl, SoaTtl, SoaMade, AnyWanted, FirstWanted, Trim, Sendable;
    hide Authority;
    if req.typ == TYPE_PTR {
      PtrAnswersRead(p, j, answer, NO_REPLY);
      if AnyWanted(answer, TYPE_PTR) {
        NoMore(answer[FirstWanted(answer, TYPE_PTR)].ttl);
      }
    } else {
      AnswersRead(p, req.typ, j, answer, NO_REPLY);
      assert [] + AllAddrs(answer, req.typ) == AllAddrs(answer, req.typ);
      NoneWanted(answer, req.typ);
    }
    if !AnyWanted(answer, req.typ) && SoaMade(authority) {
      AuthorityRead(p, RecordsEnd(p, j, answer), authority, NO_TTL);
    }
  }

  lemma {:induction false} NoMore(ttl: u32)
    ensures Min(NO_TTL, ttl) == ttl
  {
  }

  lemma {:induction false} NoneWanted(items: seq<Item>, want: u16)
    ensures !AnyWanted(items, want) ==> AllAddrs(items, want) == [] && forall have, ttl :: LeastTtl(items, want, have, ttl) == ttl
    decreases |items|
  {
    if items != [] {
      AnyFirst(items, want);
      NoneWanted(items[1..], want);
    }
  }

  /** The truncation flag of a cut response reaches the client. */
  lemma {:induction false} TruncatedHeader(p: seq<byte>, id: u16, hi: byte, lo: byte, a: nat, b: nat, c: nat)
    requires CleanFlags(hi, lo)
    requires var h := ResponseHeader(id, hi, lo, 0, (1, a, b, c)); 12 <= |p| && p[..12] == h[2 := Or02(h[2])]
    ensures U16At(p, 0) == id && p[2] >= 128 && p[2] / 2 % 2 == 1
  {
    var h := ResponseHeader(id, hi, lo, 0, (1, a, b, c));
    assert p[0] == h[0] && p[1] == h[1] && p[2] == p[..12][2];
  }

  // ---------- what is refused, and errors ----------

  /** A response is never taken for a request. */
  lemma {:induction false} ResponseIsNoRequest(id: u16, hi: byte, lo: byte, err: nat, counts: (nat, nat, nat, nat),
      d: Draft, resp: seq<byte>)
    requires err < 16 && IsResponse(ResponseHeader(id, hi, lo, err, counts), d, resp)
    requires d.Draft? ==> 12 <= |d.msg| && d.msg[..12] == ResponseHeader(id, hi, lo, err, counts)
    ensures RequestOf(resp) == None
  {
    var h := ResponseHeader(id, hi, lo, err, counts);
    assert h[2] >= 128 && h[2 := Or02(h[2])][2] >= 128;
    assert resp[2] == resp[..12][2];
  }

  /** The server keeps two flags of a request: recursion desired, and checking disabled. */
  lemma {:induction false} FlagsKept(p: seq<byte>)
    requires RequestOf(p).Some?
    ensures var got := RequestOf(p).value;
            && got.id == (p[0] as int) * 256 + p[1]
            && (got.flagsHi == 1 || got.flagsHi == 0) && (got.flagsHi == 1 <==> p[2] % 2 == 1)
            && (got.flagsLo == 16 || got.flagsLo == 0) && (got.flagsLo == 16 <==> (p[3] as int) / 16 % 2 == 1)
  {
  }

  /** The two bytes are the same letter, one small and one capital. */
  predicate SameLetter(x: byte, y: byte)
  {
    (65 <= x <= 90 && y as int == x as int + 32) || (65 <= y <= 90 && x as int == y as int + 32)
  }

  /** Names are compared byte by byte, letters without regard to case if asked for. */
  lemma {:induction false} SameNameMeans(a: seq<byte>, b: seq<byte>)
    requires NoNul(a) && NoNul(b)
    ensures SameName(a, b, true) <==> a == b
    ensures SameName(a, b, false) <==> |a| == |b| && forall i | 0 <= i < |a| :: a[i] == b[i] || SameLetter(a[i], b[i])
  {
    hide CStr;
    var x, y := Lower(a), Lower(b);
    if |a| == |b| {
      forall i | 0 <= i < |a|
        ensures x[i] == y[i] <==> a[i] == b[i] || SameLetter(a[i], b[i])
      {
      }
      assert x == y <==> forall i | 0 <= i < |a| :: x[i] == y[i];
    }
  }

  /** A reply to another question is refused. */
  lemma {:induction false} OtherQuestion(p: seq<byte>, id: u16, other: seq<byte>, asked: seq<byte>, typ: u16,
      inflight: map<u16, Pending>, matchCase: bool)
    requires 12 <= |p| && U16At(p, 0) == id && U16At(p, 4) == 1 && p[2] >= 128 && CleanFlags(p[2], p[3])
    requires HostName(other) && Names(p, 12, NameLabels(other)) && HostName(asked) && ShortLabels(asked)
    requires id in inflight && Query(id, asked, typ, CLASS_INET) == Coded(inflight[id].query, None)
    requires !SameName(Trim(other), Trim(asked), matchCase)
    ensures ReplyOf(p, inflight, matchCase) == Rejected(inflight[id], p[2], p[3])
  {
    hide Parse, Names, NameLabels, EndOf, SameName, Trim, Query, RequestOf, HostName, ShortLabels;
    QueryRead(id, asked, typ, CLASS_INET);
    ParsedHostName(p, 12, other);
    assert EndOf(p, 12) + 4 <= |p| ==>
      ReplyQuestions(p, inflight[id].query, EndOf(p, 12) + 4, 0, false, matchCase) == Some((EndOf(p, 12) + 4, false));
  }

  /** A packet whose id no request in flight has, or that is no response, does nothing. */
  lemma {:induction false} StrangePacket(p: seq<byte>, inflight: map<u16, Pending>, matchCase: bool)
    ensures ReplyOf(p, inflight, matchCase) == Ignored <==>
              |p| < 12 || (p[0] as int) * 256 + p[1] !in inflight || p[2] < 128
  {
  }

  /** The error that the server sets is the one that the client learns, if it is one that it knows. */
  lemma {:induction false} ErrorRead(p: seq<byte>, id: u16, hi: byte, lo: byte, err: nat, counts: (nat, nat, nat, nat),
      inflight: map<u16, Pending>, matchCase: bool)
    requires 12 <= |p| && 0 < err < 16 && p[..12] == ResponseHeader(id, hi, lo, err, counts) && CleanFlags(hi, lo)
    requires id in inflight
    ensures var o := ReplyOf(p, inflight, matchCase);
            !o.Ignored? && Verdict(o) == if err <= 5 then err else DNS_ERR_UNKNOWN
    ensures err != DNS_ERR_NOTEXIST ==> ReplyOf(p, inflight, matchCase).Rejected?
  {
    hide ReplyQuestions, Answers, Authority;
    var h := ResponseHeader(id, hi, lo, err, counts);
    assert p[0] == h[0] && p[1] == h[1] && p[2] == h[2] && p[3] == h[3];
    assert p[3] % 16 == err && p[2] / 2 % 2 == 0;
  }

  // ---------- several questions ----------

  /** The questions of a message, as they are read. */
  function Heard(qs: seq<Question>): (r: seq<Question>)
    ensures |r| == |qs|
  {
    seq(|qs|, k requires 0 <= k < |qs| => Question(Trim(qs[k].name), qs[k].typ, qs[k].cls))
  }

  /** One question behind a draft is read, and ends where the draft ends. */
  lemma {:induction false} OneQuestion(d: Draft, q: Question)
    requires Sound(d) && d.Draft? && HostName(q.name)
    ensures var r := PutQuestion(d, q);
            && Sound(r) && Extends(d, r)
            && (r.Draft? ==>
                  && Names(r.msg, |d.msg|, NameLabels(q.name)) && EndOf(r.msg, |d.msg|) + 4 == |r.msg|
                  && U16At(r.msg, |r.msg| - 4) == q.typ && U16At(r.msg, |r.msg| - 2) == q.cls)
  {
    hide Encode, NameLabels, TableOk, Names, EndOf, PutBytes, U16, U16At, Proper;
    var d1 := PutName(d, q.name);
    NameSound(d, q.name);
    EncodeTable(|d.msg|, RESPONSE_BUF, q.name, d.table);
    var d2 := PutBytes(d1, U16(q.typ));
    BytesSound(d1, U16(q.typ));
    BytesSound(d2, U16(q.cls));
    BytesFit(d1, U16(q.typ));
    BytesFit(d2, U16(q.cls));
    BytesOf(q.typ);
    BytesOf(q.cls);
    var r := PutQuestion(d, q);
    if r.Draft? {
      NamesStay(d1.msg, U16(q.typ), |d.msg|, NameLabels(q.name));
      NamesStay(d2.msg, U16(q.cls), |d.msg|, NameLabels(q.name));
      assert r.msg[|r.msg| - 4..|r.msg| - 2] == U16(q.typ) && r.msg[|r.msg| - 2..] == U16(q.cls);
      NumberAt(r.msg, |r.msg| - 4, q.typ);
      NumberAt(r.msg, |r.msg| - 2, q.cls);
    }
  }

  /** All questions that are written are read, in order. */
  lemma {:induction false} QuestionsRead(d: Draft, qs: seq<Question>)
    requires Sound(d) && d.Draft? && forall k | 0 <= k < |qs| :: HostName(qs[k].name)
    ensures var r := PutQuestions(d, qs);
            && Sound(r) && Extends(d, r)
            && (r.Draft? ==> forall more :: QuestionsOf(r.msg + more, |d.msg|, |qs|) == Some(Heard(qs)))
    decreases |qs|
  {
    hide TableOk, PutQuestion, HostName, Names, NameLabels, EndOf, U16At, Trim, Parse, CStr;
    if qs == [] {
      assert forall more :: QuestionsOf(d.msg + more, |d.msg|, 0) == Some([]);
    } else {
      var q, rest, d1 := qs[0], qs[1..], PutQuestion(d, qs[0]);
      OneQuestion(d, q);
      if d1.Draft? {
        QuestionsRead(d1, rest);
        var r := PutQuestions(d, qs);
        if r.Draft? {
          assert r.msg[..|d.msg|] == r.msg[..|d1.msg|][..|d.msg|];
          forall more
            ensures QuestionsOf(r.msg + more, |d.msg|, |qs|) == Some(Heard(qs))
          {
            QuestionRead(d1.msg, r.msg[|d1.msg|..] + more, |d.msg|, q);
            assert r.msg + more == d1.msg + (r.msg[|d1.msg|..] + more);
            assert Heard(qs) == [Question(Trim(q.name), q.typ, q.cls)] + Heard(rest);
          }
        }
      } else {
        QuestionsStop(d1, rest);
      }
    }
  }

  lemma {:induction false} QuestionRead(p: seq<byte>, more: seq<byte>, j: nat, q: Question)
    requires HostName(q.name) && Names(p, j, NameLabels(q.name)) && EndOf(p, j) + 4 == |p|
    requires U16At(p, |p| - 4) == q.typ && U16At(p, |p| - 2) == q.cls
    ensures var m := p + more;
            && Parse(m, j, [], 0, NAME_BUF) == Some(Trim(q.name)) && CStr(Trim(q.name)) == Trim(q.name)
            && EndOf(m, j) + 4 == |p| && U16At(m, EndOf(m, j)) == q.typ && U16At(m, EndOf(m, j) + 2) == q.cls
  {
    hide Names, NameLabels, EndOf, Trim, Parse, CStr, Proper;
    NamesStay(p, more, j, NameLabels(q.name));
    ParsedHostName(p + more, j, q.name);
    TrimNoNul(q.name);
  }

  lemma {:induction false} NotBad(id: u16, name: seq<byte>, typ: u16, answer: seq<Item>)
    requires HostName(name) && ShortLabels(name)
    ensures !Answered(Asked(id, name, typ), 1, 0, answer, [], []).Bad?
  {
    hide PutItems, PutQuestions;
    var header := ResponseHeader(id, 1, 0, 0, (1, |answer|, 0, 0));
    QuestionSound(header, name, typ, CLASS_INET);
    var d := PutQuestions(Draft(header, []), Asked(id, name, typ).questions);
    ItemsStop(d, answer);
    ItemsStop(PutItems(d, answer), []);
    ItemsStop(PutItems(PutItems(d, answer), []), []);
  }

  /** The server's user adds records to the answer. */
  method AddAnswers(req: ServerRequest, answer: seq<Item>)
    requires req.Valid() && req.response.None? && req.answer == req.authority == req.additional == []
    requires forall k | 0 <= k < |answer| :: ItemFits(answer[k])
    modifies req
    ensures req.Valid() && req.response.None? && req.answer == answer && req.authority == req.additional == []
    ensures req.flagsHi == old(req.flagsHi) && req.flagsLo == old(req.flagsLo)
  {
    var i := 0;
    while i < |answer|
      invariant i <= |answer| && req.Valid() && req.response.None? && req.answer == answer[..i]
      invariant req.authority == req.additional == []
      invariant req.flagsHi == old(req.flagsHi) && req.flagsLo == old(req.flagsLo)
    {
      var _ := req.AddReply(AnswerSection, answer[i]);
      i := i + 1;
    }
  }

  /** The whole exchange, run through the code of both ends. */
  method Exchange(id: u16, name: seq<byte>, typ: u16, answer: seq<Item>, matchCase: bool) returns (o: Outcome)
    requires HostName(name) && ShortLabels(name) && Askable(typ) && GoodRecords(answer, typ)
    ensures Told(o, Answered(Asked(id, name, typ), 1, 0, answer, [], []), typ, answer, [])
  {
    hide Trim, Query, RequestOf, PutQuestions, PutItems, ResponseHeader, Parse, ReplyOf, IsResponse, Told, HostName;
    hide ShortLabels;
    QueryRead(id, name, typ, CLASS_INET);
    NotBad(id, name, typ, answer);
    var buf := new byte[RequestLen(|name|) + 1];
    assert NoNul(name) by { Host(name); }
    QueryTable(id, name, typ);
    var n := RequestDataBuild(buf, name, id, typ, CLASS_INET);
    var query := buf[..n];
    assert (query + PADDING)[..n] == query;
    var req := RequestParse(query + PADDING, n);
    AddAnswers(req, answer);
    var r := req.FormatResponse(0);
    var resp := req.response.value;
    assert (resp + PADDING)[..|resp|] == resp;
    r, o := ReplyParse(resp + PADDING, |resp|, map[id := Pending(query, typ)], matchCase);
    EndToEnd(id, name, typ, query, Asked(id, name, typ), 1, 0, answer, [], [], resp, map[id := Pending(query, typ)], matchCase);
  }

  lemma {:induction false} Host(name: seq<byte>)
    requires HostName(name)
    ensures NoNul(name)
  {
  }

  lemma {:induction false} QueryTable(id: u16, name: seq<byte>, typ: u16)
    requires Query(id, name, typ, CLASS_INET).Coded?
    ensures Query(id, name, typ, CLASS_INET).table == None
  {
  }
}
