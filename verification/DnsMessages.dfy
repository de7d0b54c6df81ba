/** DNS messages as the client and the server of evdns.c write them (section 4.1 of RFC 1035). */
module DnsMessages {
  import opened Options
  import opened Bytes
  import opened DnsNames
  import opened DnsLabels

  const TYPE_A := 1
  const TYPE_CNAME := 5
  const TYPE_SOA := 6
  const TYPE_PTR := 12
  const TYPE_AAAA := 28
  const CLASS_INET := 1

  const RESPONSE_BUF := 1500
  const UDP_MAX := 512

  type u16 = x: int | 0 <= x < 0x1_0000
  type u32 = x: int | 0 <= x < 0x1_0000_0000

  /** htons, htonl: the bytes of a number in network order. */
  function U16(x: nat): (b: seq<byte>)
  {
    [x / 256 % 256, x % 256]
  }

  function U32(x: nat): (b: seq<byte>)
  {
    U16(x / 0x1_0000) + U16(x)
  }

  function U16At(p: seq<byte>, j: nat): (x: u16)
    requires j + 2 <= |p|
  {
    (p[j] as int) * 256 + p[j + 1]
  }

  function U32At(p: seq<byte>, j: nat): (x: u32)
    requires j + 4 <= |p|
  {
    U16At(p, j) * 0x1_0000 + U16At(p, j + 2)
  }

  // ---------- the client's query ----------

  /** The header of evdns_request_data_build: one question, recursion desired. */
  function QueryHeader(id: u16): (h: seq<byte>)
    ensures |h| == 12
  {
    U16(id) + U16(0x0100) + U16(1) + U16(0) + U16(0) + U16(0)
  }

  /** evdns_request_len */
  function RequestLen(nameLen: nat): nat
  {
    96 + nameLen + 2 + 4
  }

  /** The query for a name, or the encoder's error. */
  function Query(id: u16, name: seq<byte>, typ: u16, cls: u16): (r: Coded)
  {
    var c := Encode(12, RequestLen(|name|), name, None);
    if c.Failed? then c else Coded(QueryHeader(id) + c.bytes + U16(typ) + U16(cls), None)
  }

  /** APPEND16, APPEND32 and memcpy behind a check: `d` goes to `j` if it fits; -1 otherwise. */
  method Append(buf: array<byte>, bufLen: nat, j: nat, d: seq<byte>, ghost msg: seq<byte>) returns (r: int)
    requires bufLen <= buf.Length && j <= buf.Length && buf[..j] == msg
    modifies buf
    ensures buf[..j] == msg
    ensures if j + |d| > bufLen then r == -1 else r == j + |d| && buf[..r] == msg + d
    ensures forall i | bufLen <= i < buf.Length :: buf[i] == old(buf[i])
  {
    if j + |d| > bufLen {
      return -1;
    }
    assert buf[..j] == msg + [];
    Put(buf, j, d, msg, []);
    assert [] + d == d;
    return j + |d|;
  }

  /** evdns_request_data_build */
  method RequestDataBuild(buf: array<byte>, name: seq<byte>, id: u16, typ: u16, cls: u16) returns (r: int)
    requires NoNul(name) && RequestLen(|name|) < buf.Length
    modifies buf
    ensures match Query(id, name, typ, cls)
            case Failed(code, _) => r == code < 0
            case Coded(msg, _) => r == |msg| <= RequestLen(|name|) && buf[..r] == msg
  {
    hide Code;
    var bufLen := RequestLen(|name|);
    var j := Append(buf, bufLen, 0, QueryHeader(id), []);
    r := DnsnameToLabels(buf, bufLen, j, name, null);
    CodeEnds(12, bufLen, name, None);
    if r < 0 {
      return;
    }
    ghost var msg := QueryHeader(id) + Encode(12, bufLen, name, None).bytes;
    r := Append(buf, bufLen, r, U16(typ), msg);
    r := Append(buf, bufLen, r, U16(cls), msg + U16(typ));
  }

  // ---------- the server's response ----------

  datatype Question = Question(name: seq<byte>, typ: u16, cls: u16)

  /** The data of a resource record: bytes, or a name to be encoded. */
  datatype Data = Raw(bytes: seq<byte>) | NameData(name: seq<byte>)

  /** struct server_reply_item */
  datatype Item = Item(name: seq<byte>, typ: u16, cls: u16, ttl: u32, data: Data)

  /** Names are C strings; `datalen` has 16 bits. */
  predicate ItemFits(i: Item)
  {
    && NoNul(i.name)
    && match i.data
       case Raw(b) => |b| < 0x1_0000
       case NameData(n) => NoNul(n)
  }

  /**
   A message under construction, no room left for it, or a question that cannot
   be encoded.  A full one starts with the pieces that were `begun`, and may
   have `spilled` a byte behind the buffer.
  */
  datatype Draft = Draft(msg: seq<byte>, table: Entries) | Full(spilled: bool, begun: seq<byte>) | Bad(code: int)

  /** A byte has been written behind the buffer. */
  predicate Spilled(d: Draft)
  {
    match d
    case Draft(msg, _) => |msg| > RESPONSE_BUF
    case Full(spilled, _) => spilled
    case Bad(_) => false
  }

  function PutBytes(d: Draft, b: seq<byte>): Draft
  {
    if !d.Draft? then d else if |d.msg| + |b| > RESPONSE_BUF then Full(Spilled(d), d.msg) else d.(msg := d.msg + b)
  }

  /** A name at the end of the message, `gap` bytes on; `orElse` if it cannot be encoded. */
  function PutName(d: Draft, name: seq<byte>): Draft
  {
    if !d.Draft? then d else
      match Encode(|d.msg|, RESPONSE_BUF, name, Some(d.table))
      case Coded(b, Some(t)) => Draft(d.msg + b, t)
      case _ => Full(Spilled(d), d.msg)
  }

  function PutQuestion(d: Draft, q: Question): Draft
  {
    if !d.Draft? then d else
      var c := Encode(|d.msg|, RESPONSE_BUF, q.name, Some(d.table));
      if c.Failed? then Bad(c.code) else PutBytes(PutBytes(PutName(d, q.name), U16(q.typ)), U16(q.cls))
  }

  /** The fixed fields behind a record's name. */
  function PutFixed(d: Draft, i: Item): Draft
  {
    PutBytes(PutBytes(PutBytes(d, U16(i.typ)), U16(i.cls)), U32(i.ttl))
  }

  /** The length and the data of a record. */
  function PutData(d: Draft, data: Data): Draft
  {
    if !d.Draft? then d else
      match data
      case Raw(b) => PutBytes(PutBytes(d, U16(|b|)), b)
      case NameData(n) =>
        match Encode(|d.msg| + 2, RESPONSE_BUF, n, Some(d.table))
        case Coded(b, Some(t)) => Draft(d.msg + U16(|b|) + b, t)
        case _ => Full(Spilled(d), d.msg)
  }

  function PutItem(d: Draft, i: Item): Draft
  {
    PutData(PutFixed(PutName(d, i.name), i), i.data)
  }

  function PutQuestions(d: Draft, qs: seq<Question>): Draft
    decreases |qs|
  {
    if qs == [] then d else PutQuestions(PutQuestion(d, qs[0]), qs[1..])
  }

  function PutItems(d: Draft, items: seq<Item>): Draft
    decreases |items|
  {
    if items == [] then d else PutItems(PutItem(d, items[0]), items[1..])
  }

  /** `|` on four bits */
  function OrNibble(a: nat, b: nat): (r: nat)
    requires a < 16 && b < 16
    ensures r < 16 && (a == 0 ==> r == b) && (b == 0 ==> r == a) && (r == 0 ==> a == 0 && b == 0)
  {
    (if a / 8 == 1 || b / 8 == 1 then 8 else 0) + (if a / 4 % 2 == 1 || b / 4 % 2 == 1 then 4 else 0)
      + (if a / 2 % 2 == 1 || b / 2 % 2 == 1 then 2 else 0) + (if a % 2 == 1 || b % 2 == 1 then 1 else 0)
  }

  /** `x | 0x80` */
  function Or80(x: byte): (r: byte)
    ensures r >= 128 && r % 128 == x % 128
  {
    if x >= 128 then x else x + 128
  }

  /** `x | 0x02` */
  function Or02(x: byte): (r: byte)
    ensures r / 2 % 2 == 1 && (r >= 128 <==> x >= 128)
  {
    if x / 2 % 2 == 1 then x else x + 2
  }

  /** The header of a response: `flags | 0x8000 | err` and the counts. */
  function ResponseHeader(id: u16, hi: byte, lo: byte, err: nat, counts: (nat, nat, nat, nat)): (h: seq<byte>)
    requires err < 16
    ensures |h| == 12
  {
    U16(id) + [Or80(hi), (lo as int) / 16 * 16 + OrNibble((lo as int) % 16, err)]
      + U16(counts.0) + U16(counts.1) + U16(counts.2) + U16(counts.3)
  }

  /** The memory holds draft `d`, which ends at `j`. */
  ghost predicate Drawn(buf: array<byte>, j: nat, table: LabelTable, d: Draft)
    reads buf, table
  {
    buf.Length == RESPONSE_BUF + 3 && d.Draft? && 12 <= j == |d.msg| <= RESPONSE_BUF + 1 && buf[..j] == d.msg && table.labels == d.table
    && (j > RESPONSE_BUF ==> buf[RESPONSE_BUF] == 0)
  }

  /** The memory behind the buffer: its first byte is cleared if the draft has spilled, all else is as it was. */
  twostate predicate PastEnd(buf: array<byte>, d2: Draft)
    reads buf
  {
    && buf.Length == RESPONSE_BUF + 3
    && buf[RESPONSE_BUF] == (if Spilled(d2) then 0 else old(buf[RESPONSE_BUF]))
    && buf[RESPONSE_BUF + 1] == old(buf[RESPONSE_BUF + 1]) && buf[RESPONSE_BUF + 2] == old(buf[RESPONSE_BUF + 2])
  }

  /** What a writer leaves: draft `d2`, or -1 for one that is full; the header stays. */
  twostate predicate Wrote(buf: array<byte>, r: int, table: LabelTable, d2: Draft)
    reads buf, table
  {
    && PastEnd(buf, d2) && buf[..12] == old(buf[..12])
    && if d2.Draft? then r >= 0 && Drawn(buf, r, table, d2)
       else d2.Full? && r == -1 && |d2.begun| <= RESPONSE_BUF + 1 && buf[..|d2.begun|] == d2.begun
  }

  method WriteBytes(buf: array<byte>, j: nat, b: seq<byte>, table: LabelTable, ghost d: Draft) returns (r: int)
    requires Drawn(buf, j, table, d)
    modifies buf
    ensures Wrote(buf, r, table, PutBytes(d, b))
  {
    assert buf[..12] == buf[..j][..12];
    r := Append(buf, RESPONSE_BUF, j, b, d.msg);
    assert buf[..12] == buf[..j][..12];
  }

  method WriteName(buf: array<byte>, j: nat, name: seq<byte>, table: LabelTable, ghost d: Draft) returns (r: int,
      code: int)
    requires Drawn(buf, j, table, d) && NoNul(name)
    modifies buf, table
    ensures Wrote(buf, r, table, PutName(d, name))
    ensures var c := Encode(j, RESPONSE_BUF, name, Some(d.table)); if c.Failed? then r == -1 && code == c.code < 0 else code == 0
  {
    hide Encode;
    assert buf[..12] == buf[..j][..12];
    code := DnsnameToLabels(buf, RESPONSE_BUF, j, name, table);
    assert buf[..12] == buf[..j][..12];
    EncodeTable(j, RESPONSE_BUF, name, d.table);
    if code < 0 {
      return -1, code;
    }
    return code, 0;
  }

  lemma {:induction false} EncodeTable(pos: nat, bufLen: nat, name: seq<byte>, t: Entries)
    ensures Encode(pos, bufLen, name, Some(t)).table.Some?
  {
    if |name| <= 255 {
      CodeTable(pos, bufLen, name, t);
    }
  }

  lemma {:induction false} CodeTable(pos: nat, bufLen: nat, name: seq<byte>, t: Entries)
    ensures Code(pos, bufLen, name, Some(t)).table.Some?
    decreases |name|
  {
    hide Dot, Lookup;
    if Lookup(t, name).None? && Dot(name) < |name| {
      CodeTable(pos + Dot(name) + 1, bufLen, name[Dot(name) + 1..], Remember(t, name, pos));
    }
  }

  lemma {:induction false} NameDataDraft(d: Draft, name: seq<byte>)
    requires d.Draft?
    ensures var c := Encode(|d.msg| + 2, RESPONSE_BUF, name, Some(d.table));
            PutData(d, NameData(name)) ==
              if c.Coded? && c.table.Some? then Draft(d.msg + U16(|c.bytes|) + c.bytes, c.table.value) else Full(Spilled(d), d.msg)
  {
    hide Encode, U16;
  }

  /** The length of a record's data, filled in at `j`. */
  method FillIn(buf: array<byte>, j: nat, r: nat, ghost msg: seq<byte>, ghost b: seq<byte>)
    requires 12 <= j <= j + 2 <= r == j + 2 + |b| <= buf.Length && buf[..j] == msg && buf[j + 2..r] == b
    modifies buf
    ensures buf[..r] == msg + U16(|b|) + b && buf[..12] == old(buf[..12])
    ensures forall i | j + 2 <= i < buf.Length :: buf[i] == old(buf[i])
  {
    buf[j], buf[j + 1] := (r - (j + 2)) / 256 % 256, (r - (j + 2)) % 256;
    assert buf[j + 2..r] == b;
    assert buf[..j] == msg;
    assert buf[..12] == buf[..j][..12];
    assert buf[..r] == buf[..j] + U16(|b|) + b;
  }

  /** The data of a record that is a name: its length is filled in behind it. */
  method WriteNameData(buf: array<byte>, j: nat, name: seq<byte>, table: LabelTable, ghost d: Draft) returns (r: int)
    requires Drawn(buf, j, table, d) && j <= RESPONSE_BUF && NoNul(name)
    modifies buf, table
    ensures Wrote(buf, r, table, PutData(d, NameData(name)))
  {
    hide Encode, PutData;
    assert buf[..12] == buf[..j][..12];
    var start := j + 2;
    r := DnsnameToLabels(buf, RESPONSE_BUF, start, name, table);
    EncodeTable(start, RESPONSE_BUF, name, d.table);
    NameDataDraft(d, name);
    assert buf[..j] == buf[..start][..j];
    assert buf[..12] == buf[..j][..12];
    if r < 0 {
      return -1;
    }
    ghost var b := Encode(start, RESPONSE_BUF, name, Some(d.table)).bytes;
    assert buf[start..r] == b;
    FillIn(buf, j, r, d.msg, b);
  }

  /** The fixed fields of a record. */
  method WriteFixed(buf: array<byte>, j: nat, i: Item, table: LabelTable, ghost d: Draft) returns (r: int)
    requires Drawn(buf, j, table, d)
    modifies buf
    ensures Wrote(buf, r, table, PutFixed(d, i)) && r <= RESPONSE_BUF
  {
    hide PutBytes, U16;
    ghost var d1 := PutBytes(d, U16(i.typ));
    ghost var d2 := PutBytes(d1, U16(i.cls));
    BytesFit(d, U16(i.typ));
    BytesFit(d1, U16(i.cls));
    BytesFit(d2, U32(i.ttl));
    r := WriteBytes(buf, j, U16(i.typ), table, d);
    if r < 0 {
      return;
    }
    r := WriteBytes(buf, r, U16(i.cls), table, d1);
    if r < 0 {
      return;
    }
    r := WriteBytes(buf, r, U32(i.ttl), table, d2);
  }

  lemma {:induction false} BytesFit(d: Draft, b: seq<byte>)
    ensures PutBytes(d, b).Draft? ==> d.Draft? && |PutBytes(d, b).msg| == |d.msg| + |b| <= RESPONSE_BUF
    ensures d.Full? ==> PutBytes(d, b) == d
    ensures Spilled(d) ==> Spilled(PutBytes(d, b))
    ensures d.Draft? ==> PutBytes(d, b).Draft? || PutBytes(d, b).Full?
    ensures PutBytes(d, b).Draft? ==> PutBytes(d, b).table == d.table && PutBytes(d, b).msg == d.msg + b
  {
  }

  method WriteData(buf: array<byte>, j: nat, data: Data, table: LabelTable, ghost d: Draft) returns (r: int)
    requires Drawn(buf, j, table, d) && j <= RESPONSE_BUF
    requires match data case Raw(b) => |b| < 0x1_0000 case NameData(n) => NoNul(n)
    modifies buf, table
    ensures Wrote(buf, r, table, PutData(d, data))
  {
    hide PutBytes, U16;
    match data {
    case NameData(n) =>
      r := WriteNameData(buf, j, n, table, d);
    case Raw(b) =>
      BytesFit(d, U16(|b|));
      r := WriteBytes(buf, j, U16(|b|), table, d);
      if r < 0 {
        BytesFit(PutBytes(d, U16(|b|)), b);
        return;
      }
      ghost var d1 := PutBytes(d, U16(|b|));
      BytesFit(d1, b);
      r := WriteBytes(buf, r, b, table, d1);
    }
  }

  /** One resource record. */
  method WriteItem(buf: array<byte>, j: nat, i: Item, table: LabelTable, ghost d: Draft) returns (r: int)
    requires Drawn(buf, j, table, d) && ItemFits(i)
    modifies buf, table
    ensures Wrote(buf, r, table, PutItem(d, i))
  {
    hide PutName, PutFixed, PutData;
    StaysFull(d, i);
    var code;
    r, code := WriteName(buf, j, i.name, table, d);
    if r < 0 {
      return;
    }
    r := WriteFixed(buf, r, i, table, PutName(d, i.name));
    if r < 0 {
      return;
    }
    r := WriteData(buf, r, i.data, table, PutFixed(PutName(d, i.name), i));
  }

  lemma {:induction false} StaysFull(d: Draft, i: Item)
    ensures PutName(d, i.name).Full? ==> PutItem(d, i) == PutName(d, i.name)
    ensures PutFixed(PutName(d, i.name), i).Full? ==> PutItem(d, i) == PutFixed(PutName(d, i.name), i)
    ensures Spilled(d) ==> Spilled(PutName(d, i.name))
    ensures Spilled(PutName(d, i.name)) ==> Spilled(PutFixed(PutName(d, i.name), i))
    ensures Spilled(PutFixed(PutName(d, i.name), i)) ==> Spilled(PutItem(d, i))
  {
    hide Encode, U16, U32;
    NameSpillStays(d, i.name);
    DataSpillStays(PutFixed(PutName(d, i.name), i), i.data);
  }

  /** What has been written behind the buffer stays written. */
  lemma {:induction false} NameSpillStays(d: Draft, name: seq<byte>)
    ensures Spilled(d) ==> Spilled(PutName(d, name))
  {
    if d.Draft? {
      CodeEnds(|d.msg|, RESPONSE_BUF, name, Some(d.table));
      CodeNotEmpty(|d.msg|, RESPONSE_BUF, name, Some(d.table));
      EncodeTable(|d.msg|, RESPONSE_BUF, name, d.table);
    }
  }

  lemma {:induction false} DataSpillStays(d: Draft, data: Data)
    ensures Spilled(d) ==> Spilled(PutData(d, data))
  {
    if d.Draft? && data.NameData? {
      EncodeTable(|d.msg| + 2, RESPONSE_BUF, data.name, d.table);
    }
  }

  lemma {:induction false} CodeNotEmpty(pos: nat, bufLen: nat, name: seq<byte>, t: Maybe<Entries>)
    ensures Code(pos, bufLen, name, t).Coded? ==> Code(pos, bufLen, name, t).bytes != []
  {
  }

  /** The records of one section. */
  method WriteItems(buf: array<byte>, j: nat, items: seq<Item>, table: LabelTable, ghost d: Draft) returns (r: int)
    requires Drawn(buf, j, table, d) && forall k | 0 <= k < |items| :: ItemFits(items[k])
    modifies buf, table
    ensures Wrote(buf, r, table, PutItems(d, items))
  {
    hide PutItem, ItemFits;
    r := j;
    ghost var done := d;
    var k := 0;
    while k < |items|
      invariant k <= |items| && r >= 0 && Drawn(buf, r, table, done) && buf[..12] == old(buf[..12])
        && PastEnd(buf, done)
      invariant PutItems(d, items) == PutItems(done, items[k..])
    {
      assert items[k..][1..] == items[k + 1..];
      SpillStays(done, items[k]);
      r := WriteItem(buf, r, items[k], table, done);
      done := PutItem(done, items[k]);
      if r < 0 {
        ItemsFull(done, items[k + 1..]);
        return;
      }
      k := k + 1;
    }
  }

  lemma {:induction false} SpillStays(d: Draft, i: Item)
    ensures Spilled(d) ==> Spilled(PutItem(d, i))
  {
    StaysFull(d, i);
  }

  lemma {:induction false} ItemsFull(d: Draft, items: seq<Item>)
    requires d.Full?
    ensures PutItems(d, items) == d
    decreases |items|
  {
    if items != [] {
      ItemsFull(d, items[1..]);
    }
  }

  lemma {:induction false} QuestionsStop(d: Draft, qs: seq<Question>)
    requires !d.Draft?
    ensures PutQuestions(d, qs) == d
    decreases |qs|
  {
    if qs != [] {
      QuestionsStop(d, qs[1..]);
    }
  }

  /** The question section; `code` is the error of a name that cannot be encoded. */
  method WriteQuestions(buf: array<byte>, j: nat, qs: seq<Question>, table: LabelTable,
      ghost d: Draft) returns (r: int, code: int)
    requires Drawn(buf, j, table, d) && j <= RESPONSE_BUF && forall k | 0 <= k < |qs| :: NoNul(qs[k].name)
    modifies buf, table
    ensures PastEnd(buf, PutQuestions(d, qs))
    ensures if PutQuestions(d, qs).Bad? then code == PutQuestions(d, qs).code < 0
            else code == 0 && Wrote(buf, r, table, PutQuestions(d, qs))
  {
    hide PutQuestion, NoNul;
    r, code := j, 0;
    ghost var done := d;
    var k := 0;
    while k < |qs|
      invariant k <= |qs| && 0 <= r <= RESPONSE_BUF && code == 0 && Drawn(buf, r, table, done)
        && buf[..12] == old(buf[..12]) && PastEnd(buf, done)
      invariant PutQuestions(d, qs) == PutQuestions(done, qs[k..])
    {
      assert qs[k..][1..] == qs[k + 1..];
      QuestionSpillStays(done, qs[k]);
      r, code := WriteQuestion(buf, r, qs[k], table, done);
      done := PutQuestion(done, qs[k]);
      if code < 0 || r < 0 {
        QuestionsStop(done, qs[k + 1..]);
        return;
      }
      k := k + 1;
    }
  }

  lemma {:induction false} QuestionSpillStays(d: Draft, q: Question)
    ensures Spilled(d) && !PutQuestion(d, q).Bad? ==> Spilled(PutQuestion(d, q))
  {
    hide Encode, U16;
    NameSpillStays(d, q.name);
    BytesFit(PutName(d, q.name), U16(q.typ));
    BytesFit(PutBytes(PutName(d, q.name), U16(q.typ)), U16(q.cls));
  }

  method WriteQuestion(buf: array<byte>, j: nat, q: Question, table: LabelTable, ghost d: Draft) returns (r: int,
      code: int)
    requires Drawn(buf, j, table, d) && j <= RESPONSE_BUF && NoNul(q.name)
    modifies buf, table
    ensures PastEnd(buf, PutQuestion(d, q)) && r <= RESPONSE_BUF
    ensures if PutQuestion(d, q).Bad? then code == PutQuestion(d, q).code < 0 else code == 0 && Wrote(buf, r, table, PutQuestion(d, q))
  {
    hide PutBytes, U16, Encode;
    EncodeTable(j, RESPONSE_BUF, q.name, d.table);
    r, code := WriteName(buf, j, q.name, table, d);
    if code < 0 {
      return;
    }
    ghost var d1 := PutName(d, q.name);
    BytesFit(d1, U16(q.typ));
    ghost var d2 := PutBytes(d1, U16(q.typ));
    BytesFit(d2, U16(q.cls));
    r := WriteBytes(buf, r, U16(q.typ), table, d1);
    if r < 0 {
      return;
    }
    r := WriteBytes(buf, r, U16(q.cls), table, d2);
  }

  datatype Section = AnswerSection | AuthoritySection | AdditionalSection

  /** struct server_request: a query being answered. */
  class ServerRequest {
    const id: u16
    var flagsHi: byte
    var flagsLo: byte
    const questions: seq<Question>
    var answer: seq<Item>
    var authority: seq<Item>
    var additional: seq<Item>
    var nAnswer: nat
    var nAuthority: nat
    var nAdditional: nat
    var response: Maybe<seq<byte>>

    ghost predicate Valid()
      reads this
    {
      && (forall k | 0 <= k < |questions| :: NoNul(questions[k].name))
      && (forall k | 0 <= k < |answer| :: ItemFits(answer[k]))
      && (forall k | 0 <= k < |authority| :: ItemFits(authority[k]))
      && (forall k | 0 <= k < |additional| :: ItemFits(additional[k]))
      && (response.None? ==> nAnswer == |answer| && nAuthority == |authority| && nAdditional == |additional|)
    }

    constructor (id: u16, flagsHi: byte, flagsLo: byte, questions: seq<Question>)
      requires forall k | 0 <= k < |questions| :: NoNul(questions[k].name)
      ensures Valid() && response == None && answer == authority == additional == []
      ensures this.id == id && this.flagsHi == flagsHi && this.flagsLo == flagsLo && this.questions == questions
    {
      this.id, this.flagsHi, this.flagsLo, this.questions := id, flagsHi, flagsLo, questions;
      answer, authority, additional, nAnswer, nAuthority, nAdditional := [], [], [], 0, 0, 0;
      response := None;
    }

    /** evdns_server_request_add_reply: a record behind those of its section, unless the answer has been formatted. */
    method AddReply(section: Section, item: Item) returns (r: int)
      requires Valid() && ItemFits(item)
      modifies this
      ensures Valid() && response == old(response) && flagsHi == old(flagsHi) && flagsLo == old(flagsLo)
      ensures r == if old(response).Some? then -1 else 0
      ensures answer == old(answer) + if r == 0 && section.AnswerSection? then [item] else []
      ensures authority == old(authority) + if r == 0 && section.AuthoritySection? then [item] else []
      ensures additional == old(additional) + if r == 0 && section.AdditionalSection? then [item] else []
    {
      r := -1;
      if response.Some? {
        return;
      }
      match section {
      case AnswerSection =>
        answer, nAnswer := answer + [item], nAnswer + 1;
      case AuthoritySection =>
        authority, nAuthority := authority + [item], nAuthority + 1;
      case AdditionalSection =>
        additional, nAdditional := additional + [item], nAdditional + 1;
      }
      r := 0;
    }

    ghost function Header(err: nat): (h: seq<byte>)
      requires err < 16
      reads this
    {
      ResponseHeader(id, flagsHi, flagsLo, err, (|questions|, |answer|, |authority|, |additional|))
    }

    /** The whole message, if it fits 1500 bytes. */
    ghost function Drafted(err: nat): Draft
      requires err < 16
      reads this
    {
      PutItems(PutItems(PutItems(PutQuestions(Draft(Header(err), []), questions), answer), authority), additional)
    }

    /** evdns_server_request_format_response */
    method FormatResponse(err: int) returns (r: int)
      requires Valid() && response.None?
      modifies this`response, this`answer, this`authority, this`additional
      ensures Valid()
      ensures !(0 <= err < 16) ==> r == -1 && unchanged(this)
      ensures 0 <= err < 16 && old(Drafted(err)).Bad? ==> r == old(Drafted(err)).code < 0 && unchanged(this)
      ensures 0 <= err < 16 && !old(Drafted(err)).Bad? ==>
        && r == 0 && answer == authority == additional == [] && response.Some?
        && IsResponse(old(Header(err)), old(Drafted(err)), response.value)
    {
      hide Valid, PutItems, PutQuestions, ResponseHeader;
      if err < 0 || err > 15 {
        return -1;
      }
      var buf := new byte[RESPONSE_BUF + 3];
      var j, code := WriteMessage(buf, err);
      if code < 0 {
        return code;
      }
      ghost var d, sent := Drafted(err), buf[..];
      if j < 0 || j > UDP_MAX {
        Truncate(buf, Header(err));
        BodyKept(sent, buf[..], d);
        j := UDP_MAX;
      }
      Finish(buf[..j]);
      return 0;
    }

    /** The response is there; server_request_free_answers. */
    method Finish(resp: seq<byte>)
      requires Valid()
      modifies this`response, this`answer, this`authority, this`additional
      ensures Valid() && response == Some(resp) && answer == authority == additional == []
    {
      response := Some(resp);
      answer, authority, additional := [], [], [];
    }

    /** The message in `buf`: its end, -1 if it is too long, or the error of a question's name. */
    method WriteMessage(buf: array<byte>, err: nat) returns (j: int, code: int)
      requires Valid() && response.None? && err < 16 && buf.Length == RESPONSE_BUF + 3
      modifies buf
      ensures PastEnd(buf, Drafted(err))
      ensures var d := Drafted(err);
              if d.Bad? then code == d.code < 0
              else && code == 0 && buf[..12] == Header(err)
                   && if d.Full? then j == -1 && |d.begun| <= RESPONSE_BUF + 1 && buf[..|d.begun|] == d.begun
                      else d.Draft? && j == |d.msg| <= RESPONSE_BUF + 1 && buf[..j] == d.msg
    {
      hide PutItems, PutQuestions;
      var table := new LabelTable();
      var header := ResponseHeader(id, flagsHi, flagsLo, err, (|questions|, nAnswer, nAuthority, nAdditional));
      j := Append(buf, RESPONSE_BUF, 0, header, []);
      assert [] + header == header;
      ghost var d0 := Draft(header, []);
      ghost var d1 := PutQuestions(d0, questions);
      ghost var d2 := PutItems(d1, answer);
      ghost var d3 := PutItems(d2, authority);
      ItemsStop(d1, answer);
      ItemsStop(d2, authority);
      ItemsStop(d3, additional);
      ItemsSpillStays(d1, answer);
      ItemsSpillStays(d2, authority);
      ItemsSpillStays(d3, additional);
      j, code := WriteQuestions(buf, j, questions, table, d0);
      if code < 0 || j < 0 {
        return;
      }
      j := WriteItems(buf, j, answer, table, d1);
      if j < 0 {
        return;
      }
      j := WriteItems(buf, j, authority, table, d2);
      if j < 0 {
        return;
      }
      j := WriteItems(buf, j, additional, table, d3);
    }

    /** When formatting this request's response writes the byte behind the buffer. */
    lemma WhenItSpills(err: nat)
      requires err < 16
      ensures var d := PutQuestions(Draft(Header(err), []), questions);
              var items := answer + authority + additional;
              Spilled(Drafted(err)) <==>
                || (exists k :: 0 <= k < |questions| && NameHits(PutQuestions(Draft(Header(err), []), questions[..k]), questions[k].name, 0))
                || (exists k :: 0 <= k < |items| && ItemHits(PutItems(d, items[..k]), items[k]))
    {
      hide PutItems, PutQuestions, NameHits, ItemHits, ResponseHeader;
      var d := PutQuestions(Draft(Header(err), []), questions);
      ItemsBoth(d, answer, authority);
      ItemsBoth(d, answer + authority, additional);
      ResponseSpills(Header(err), questions, answer + authority + additional);
    }
  }

  // ---------- when a response writes behind its buffer ----------

  /** A name, `gap` bytes behind the draft, whose closing zero lands behind the buffer. */
  predicate NameHits(d: Draft, name: seq<byte>, gap: nat)
  {
    && d.Draft? && |name| <= 255 && ShortLabels(name) && NeedsZero(name) && Fresh(name, d.table)
    && |d.msg| + gap + |name| + 1 == RESPONSE_BUF
  }

  predicate ItemHits(d: Draft, i: Item)
  {
    NameHits(d, i.name, 0) || (i.data.NameData? && NameHits(PutFixed(PutName(d, i.name), i), i.data.name, 2))
  }

  lemma {:induction false} NameSpills(d: Draft, name: seq<byte>)
    requires !Spilled(d)
    ensures Spilled(PutName(d, name)) <==> NameHits(d, name, 0)
  {
    if d.Draft? {
      EncodeTable(|d.msg|, RESPONSE_BUF, name, d.table);
      CodeEnds(|d.msg|, RESPONSE_BUF, name, Some(d.table));
    }
  }

  lemma {:induction false} DataSpills(d: Draft, data: Data)
    requires !Spilled(d)
    ensures Spilled(PutData(d, data)) <==> data.NameData? && NameHits(d, data.name, 2)
  {
    match data {
    case Raw(b) =>
      BytesSpill(d, U16(|b|));
      BytesSpill(PutBytes(d, U16(|b|)), b);
    case NameData(name) =>
      if d.Draft? {
        EncodeTable(|d.msg| + 2, RESPONSE_BUF, name, d.table);
        CodeEnds(|d.msg| + 2, RESPONSE_BUF, name, Some(d.table));
      }
    }
  }

  lemma {:induction false} BytesSpill(d: Draft, b: seq<byte>)
    ensures Spilled(PutBytes(d, b)) <==> Spilled(d)
  {
  }

  lemma {:induction false} ItemSpills(d: Draft, i: Item)
    requires !Spilled(d)
    ensures Spilled(PutItem(d, i)) <==> ItemHits(d, i)
  {
    hide PutName, PutData, PutBytes, NameHits, Spilled;
    var named := PutName(d, i.name);
    NameSpills(d, i.name);
    BytesSpill(named, U16(i.typ));
    BytesSpill(PutBytes(named, U16(i.typ)), U16(i.cls));
    BytesSpill(PutBytes(PutBytes(named, U16(i.typ)), U16(i.cls)), U32(i.ttl));
    DataSpillStays(PutFixed(named, i), i.data);
    if !Spilled(named) {
      DataSpills(PutFixed(named, i), i.data);
    }
  }

  /** Records write behind the buffer exactly when one of them does, the ones before it written. */
  lemma {:induction false} ItemsSpill(d: Draft, items: seq<Item>)
    requires !Spilled(d)
    ensures Spilled(PutItems(d, items)) <==> exists k :: 0 <= k < |items| && ItemHits(PutItems(d, items[..k]), items[k])
    decreases |items|
  {
    hide PutItem, ItemHits, Spilled;
    if items != [] {
      var next, rest := PutItem(d, items[0]), items[1..];
      ItemSpills(d, items[0]);
      assert items[..0] == [] && PutItems(d, items[..0]) == d;
      if Spilled(next) {
        ItemsSpillStays(next, rest);
        assert ItemHits(PutItems(d, items[..0]), items[0]);
      } else {
        ItemsSpill(next, rest);
        forall k | 0 <= k < |rest|
          ensures PutItems(d, items[..k + 1]) == PutItems(next, rest[..k]) && items[k + 1] == rest[k]
        {
          assert items[..k + 1][1..] == rest[..k];
        }
        if k :| 0 <= k < |rest| && ItemHits(PutItems(next, rest[..k]), rest[k]) {
          assert ItemHits(PutItems(d, items[..k + 1]), items[k + 1]);
        }
        if k :| 0 <= k < |items| && ItemHits(PutItems(d, items[..k]), items[k]) {
          assert k > 0;
          assert ItemHits(PutItems(next, rest[..k - 1]), rest[k - 1]);
        }
      }
    }
  }

  lemma {:induction false} ItemsSpillStays(d: Draft, items: seq<Item>)
    ensures Spilled(d) ==> Spilled(PutItems(d, items))
    decreases |items|
  {
    hide PutItem, Spilled;
    if items != [] {
      SpillStays(d, items[0]);
      ItemsSpillStays(PutItem(d, items[0]), items[1..]);
    }
  }

  lemma {:induction false} ItemsBoth(d: Draft, a: seq<Item>, b: seq<Item>)
    ensures PutItems(d, a + b) == PutItems(PutItems(d, a), b)
    decreases |a|
  {
    hide PutItem;
    if a == [] {
      assert a + b == b;
    } else {
      assert (a + b)[1..] == a[1..] + b;
      ItemsBoth(PutItem(d, a[0]), a[1..], b);
    }
  }

  /** The type does not fit behind such a name, so the message is full. */
  lemma {:induction false} QuestionSpills(d: Draft, q: Question)
    requires !Spilled(d)
    ensures Spilled(PutQuestion(d, q)) <==> NameHits(d, q.name, 0)
    ensures Spilled(PutQuestion(d, q)) ==> PutQuestion(d, q).Full?
  {
    hide Encode, PutName, PutBytes, NameHits, Spilled;
    NameSpills(d, q.name);
    BytesSpill(PutName(d, q.name), U16(q.typ));
    BytesSpill(PutBytes(PutName(d, q.name), U16(q.typ)), U16(q.cls));
    QuestionCases(d, q);
  }

  lemma {:induction false} QuestionCases(d: Draft, q: Question)
    requires !Spilled(d)
    ensures PutQuestion(d, q) == PutBytes(PutBytes(PutName(d, q.name), U16(q.typ)), U16(q.cls))
            || (!Spilled(PutQuestion(d, q)) && !Spilled(PutName(d, q.name)))
    ensures Spilled(PutQuestion(d, q)) ==> PutQuestion(d, q).Full?
  {
    if d.Draft? {
      EncodeTable(|d.msg|, RESPONSE_BUF, q.name, d.table);
    }
  }

  lemma {:induction false} QuestionsSpill(d: Draft, qs: seq<Question>)
    requires !Spilled(d)
    ensures Spilled(PutQuestions(d, qs)) <==> exists k :: 0 <= k < |qs| && NameHits(PutQuestions(d, qs[..k]), qs[k].name, 0)
    decreases |qs|
  {
    hide PutQuestion, NameHits;
    if qs != [] {
      var next, rest := PutQuestion(d, qs[0]), qs[1..];
      QuestionSpills(d, qs[0]);
      assert qs[..0] == [] && PutQuestions(d, qs[..0]) == d;
      if Spilled(next) {
        QuestionsSpillStays(next, rest);
        assert NameHits(PutQuestions(d, qs[..0]), qs[0].name, 0);
      } else {
        QuestionsSpill(next, rest);
        forall k | 0 <= k < |rest|
          ensures PutQuestions(d, qs[..k + 1]) == PutQuestions(next, rest[..k]) && qs[k + 1] == rest[k]
        {
          assert qs[..k + 1][1..] == rest[..k];
        }
        if k :| 0 <= k < |rest| && NameHits(PutQuestions(next, rest[..k]), rest[k].name, 0) {
          assert NameHits(PutQuestions(d, qs[..k + 1]), qs[k + 1].name, 0);
        }
        if k :| 0 <= k < |qs| && NameHits(PutQuestions(d, qs[..k]), qs[k].name, 0) {
          assert k > 0;
          assert NameHits(PutQuestions(next, rest[..k - 1]), rest[k - 1].name, 0);
        }
      }
    }
  }

  /** A message that has spilled after a question is full, and stays so. */
  lemma {:induction false} QuestionsSpillStays(d: Draft, qs: seq<Question>)
    requires d.Full?
    ensures PutQuestions(d, qs) == d
  {
    QuestionsStop(d, qs);
  }

  /** One question and a record of 1500 bytes: of the 512 bytes that go out, 30 were written. */
  lemma {:induction false} MostlyUnwritten(header: seq<byte>, text: seq<byte>, ttl: u32)
    requires |header| == 12 && |text| == RESPONSE_BUF
    ensures var items := [Item([], 16, CLASS_INET, ttl, Raw(text))];
            var d := PutItems(PutQuestions(Draft(header, []), [Question([97], TYPE_A, CLASS_INET)]), items);
            d.Full? && Known(d) == 30
  {
    hide Code, PutQuestion;
    var d0 := Draft(header, []);
    var q, i0 := Question([97], TYPE_A, CLASS_INET), Item([], 16, CLASS_INET, ttl, Raw(text));
    var d1 := PutQuestion(d0, q);
    assert [q][1..] == [] && PutQuestions(d0, [q]) == PutQuestions(d1, []) == d1;
    FirstQuestion(d0, q);
    var short := i0.(data := Raw([]));
    RootRecord(d1, short);
    assert [i0][1..] == [] && PutItems(d1, [i0]) == PutItem(d1, i0);
  }

  /** A header, a question, 1468 bytes of text and an address: the second record's name ends at byte 1500. */
  lemma {:induction false} SpillsAt(header: seq<byte>, text: seq<byte>, addr: seq<byte>, ttl: u32)
    requires |header| == 12 && |text| == 1468
    ensures var qs := [Question([97], TYPE_A, CLASS_INET)];
            var items := [Item([], 16, CLASS_INET, ttl, Raw(text)), Item([98], TYPE_A, CLASS_INET, ttl, Raw(addr))];
            Spilled(PutItems(PutQuestions(Draft(header, []), qs), items))
  {
    hide Code, PutItem, PutQuestion;
    var d0 := Draft(header, []);
    var q := Question([97], TYPE_A, CLASS_INET);
    var i0, i1 := Item([], 16, CLASS_INET, ttl, Raw(text)), Item([98], TYPE_A, CLASS_INET, ttl, Raw(addr));
    var d1 := PutQuestion(d0, q);
    assert [q][1..] == [] && PutQuestions(d0, [q]) == PutQuestions(d1, []) == d1;
    var d2 := PutItem(d1, i0);
    assert [i0, i1][1..] == [i1] && [i1][1..] == [];
    assert PutItems(d1, [i0, i1]) == PutItems(d2, [i1]) == PutItem(d2, i1);
    FirstQuestion(d0, q);
    RootRecord(d1, i0);
    assert Dot([98]) == 1;
    assert Lookup(d2.table, [98]).None?;
    assert Fresh([98], d2.table);
    assert NameHits(d2, i1.name, 0);
    ItemSpills(d2, i1);
  }

  /** A question for a name of one letter takes seven bytes. */
  lemma {:induction false} FirstQuestion(d: Draft, q: Question)
    requires d.Draft? && d.table == [] && |d.msg| == 12 && |q.name| == 1 && q.name != [DOT]
    ensures PutQuestion(d, q).Draft? && |PutQuestion(d, q).msg| == 19 && PutQuestion(d, q).table == [(q.name, 12)]
  {
    assert Dot(q.name) == 1;
    assert [] + [(q.name, 12)] == [(q.name, 12)];
    assert Remember([], q.name, 12) == [(q.name, 12)];
    assert Code(12, RESPONSE_BUF, q.name, Some([])) == Coded([1] + q.name + [0], Some([(q.name, 12)]));
  }

  /** A record for the root name takes 11 bytes and its data. */
  lemma {:induction false} RootRecord(d: Draft, i: Item)
    requires d.Draft? && |d.table| < MAX_LABELS && Lookup(d.table, []).None?
    requires i.name == [] && i.data.Raw? && |d.msg| + 11 + |i.data.bytes| <= RESPONSE_BUF
    ensures PutItem(d, i).Draft? && |PutItem(d, i).msg| == |d.msg| + 11 + |i.data.bytes|
    ensures PutItem(d, i).table == d.table + [([], |d.msg|)]
  {
    hide PutBytes;
    var pos := |d.msg|;
    assert Dot([]) == 0;
    assert Code(pos, RESPONSE_BUF, [], Some(d.table)) == Coded([0], Some(d.table + [([], pos)]));
    var d1 := PutName(d, i.name);
    assert d1 == Draft(d.msg + [0], d.table + [([], pos)]);
    BytesTake(d1, U16(i.typ));
    BytesTake(PutBytes(d1, U16(i.typ)), U16(i.cls));
    BytesTake(PutBytes(PutBytes(d1, U16(i.typ)), U16(i.cls)), U32(i.ttl));
    var d2 := PutFixed(d1, i);
    BytesTake(d2, U16(|i.data.bytes|));
    BytesTake(PutBytes(d2, U16(|i.data.bytes|)), i.data.bytes);
  }

  lemma {:induction false} BytesTake(d: Draft, b: seq<byte>)
    requires d.Draft? && |d.msg| + |b| <= RESPONSE_BUF
    ensures PutBytes(d, b) == Draft(d.msg + b, d.table)
  {
  }

  /**
   The byte behind the buffer is written exactly if the last label of some
   name, of a question or in a record, ends at its last byte but one, needs a
   closing zero, and neither the name nor what follows one of its dots has
   been written before.
  */
  lemma {:induction false} ResponseSpills(header: seq<byte>, qs: seq<Question>, items: seq<Item>)
    requires |header| == 12
    ensures var d := PutQuestions(Draft(header, []), qs);
            Spilled(PutItems(d, items)) <==>
              || (exists k :: 0 <= k < |qs| && NameHits(PutQuestions(Draft(header, []), qs[..k]), qs[k].name, 0))
              || (exists k :: 0 <= k < |items| && ItemHits(PutItems(d, items[..k]), items[k]))
  {
    hide PutItems, PutQuestions, NameHits, ItemHits;
    var d := PutQuestions(Draft(header, []), qs);
    QuestionsSpill(Draft(header, []), qs);
    if Spilled(d) {
      ItemsSpillStays(d, items);
    } else {
      ItemsSpill(d, items);
    }
  }

  /** Set the truncated bit. */
  method Truncate(buf: array<byte>, ghost header: seq<byte>)
    requires |header| == 12 <= buf.Length && buf[..12] == header
    modifies buf
    ensures buf[..12] == header[2 := Or02(header[2])] && buf[12..] == old(buf[12..])
  {
    buf[2] := Or02(buf[2]);
  }

  lemma {:induction false} ItemsStop(d: Draft, items: seq<Item>)
    ensures !d.Draft? ==> PutItems(d, items) == d
    ensures d.Draft? ==> !PutItems(d, items).Bad?
    decreases |items|
  {
    hide PutItem;
    if items != [] {
      ItemGoes(d, items[0]);
      ItemsStop(PutItem(d, items[0]), items[1..]);
    }
  }

  lemma {:induction false} ItemGoes(d: Draft, i: Item)
    ensures if d.Draft? then !PutItem(d, i).Bad? else PutItem(d, i) == d
  {
  }

  /** The bytes behind the header that were written are those that go out. */
  lemma {:induction false} BodyKept(sent: seq<byte>, now: seq<byte>, d: Draft)
    requires |sent| == |now| == RESPONSE_BUF + 3 && now[12..] == sent[12..]
    ensures d.Draft? && UDP_MAX < |d.msg| <= |sent| && sent[..|d.msg|] == d.msg ==>
      now[12..UDP_MAX] == d.msg[12..UDP_MAX]
    ensures d.Full? && 12 <= |d.begun| <= |sent| && sent[..|d.begun|] == d.begun ==>
      now[12..Known(d)] == d.begun[12..Known(d)]
  {
    var n := Known(d);
    if n >= 12 {
      assert now[12..n] == now[12..][..n - 12] && sent[12..n] == sent[12..][..n - 12];
      assert d.Draft? && |d.msg| <= |sent| ==> sent[..|d.msg|][12..n] == sent[12..n];
      assert d.Full? && |d.begun| <= |sent| ==> sent[..|d.begun|][12..n] == sent[12..n];
    }
  }

  /** How many of the bytes that go out are those of pieces that were written. */
  function Known(d: Draft): (n: nat)
    ensures n <= UDP_MAX && (d.Full? ==> n <= |d.begun|)
  {
    if d.Draft? then if |d.msg| < UDP_MAX then |d.msg| else UDP_MAX
    else if d.Full? then if |d.begun| < UDP_MAX then |d.begun| else UDP_MAX
    else 0
  }

  /**
   What goes out for draft `d`: the message, if it has at most 512 bytes;
   otherwise 512 bytes that start with its header, truncation flag set, and go
   on with what was written; behind that is whatever was in the memory.
  */
  ghost predicate IsResponse(header: seq<byte>, d: Draft, resp: seq<byte>)
    requires |header| == 12
  {
    if d.Draft? && |d.msg| <= UDP_MAX then resp == d.msg
    else
      && |resp| == UDP_MAX && resp[..12] == header[2 := Or02(header[2])]
      && (d.Draft? ==> resp[12..] == d.msg[12..UDP_MAX])
      && (d.Full? && |d.begun| >= 12 ==> var n := Known(d); resp[12..n] == d.begun[12..n])
  }
}
