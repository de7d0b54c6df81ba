/** DNS messages as the server and the client of evdns.c read them. */
module DnsParsing {
  import opened Options
  import opened Bytes
  import opened DnsNames
  import opened DnsLabels
  import opened DnsMessages

  const NAME_BUF := 256
  const HOST_NAME_MAX := 255
  const MAX_ADDRS := 32
  const NO_TTL: u32 := 0xffff_ffff

  const DNS_ERR_NONE := 0
  const DNS_ERR_NOTEXIST := 3
  const DNS_ERR_TRUNCATED := 65
  const DNS_ERR_UNKNOWN := 66
  const DNS_ERR_NODATA := 70

  /** A byte buffer as a C string. */
  function CStr(s: seq<byte>): (r: seq<byte>)
    ensures NoNul(r) && (NoNul(s) ==> r == s) && r <= s && (|r| < |s| ==> s[|r|] == 0)
  {
    if s == [] || s[0] == 0 then [] else [s[0]] + CStr(s[1..])
  }

  // ---------- the server reads a query ----------

  /** The question section: `n` questions from `j` on. */
  function QuestionsOf(p: seq<byte>, j: nat, n: nat): (r: Maybe<seq<Question>>)
    ensures r.Some? ==> |r.value| == n && forall k | 0 <= k < n :: NoNul(r.value[k].name)
    decreases n
  {
    if n == 0 then Some([]) else
      var name, e := Parse(p, j, [], 0, NAME_BUF), EndOf(p, j);
      if name.None? || e + 4 > |p| then None else
        var rest := QuestionsOf(p, e + 4, n - 1);
        if rest.None? then None else Some([Question(CStr(name.value), U16At(p, e), U16At(p, e + 2))] + rest.value)
  }

  datatype Received = Received(id: u16, flagsHi: byte, flagsLo: byte, questions: seq<Question>)

  /** What a server takes a packet for; None for one that is too short, malformed, or itself an answer. */
  function RequestOf(p: seq<byte>): (r: Maybe<Received>)
  {
    if |p| < 12 || p[2] >= 128 then None else
      var qs := QuestionsOf(p, 12, U16At(p, 4));
      if qs.None? then None else Some(Received(U16At(p, 0), p[2] % 2, (p[3] as int) / 16 % 2 * 16, qs.value))
  }

  /** The question loop of request_parse. */
  method ReadQuestions(mem: seq<byte>, length: nat, start: nat, n: nat) returns (ok: bool, qs: seq<Question>)
    requires length + 63 <= |mem|
    ensures QuestionsOf(mem[..length], start, n) == if ok then Some(qs) else None
  {
    hide Parse, CStr;
    var p := mem[..length];
    var j: nat, i: nat := start, 0;
    qs := [];
    assert QuestionsOf(p, start, n).Some? ==> [] + QuestionsOf(p, start, n).value == QuestionsOf(p, start, n).value;
    while i < n
      invariant i <= n && |qs| == i
      invariant var rest := QuestionsOf(p, j, n - i);
                QuestionsOf(p, start, n) == if rest.None? then None else Some(qs + rest.value)
    {
      var r, name, e := NameParse(mem, length, j, NAME_BUF);
      if r < 0 || e + 2 > length || e + 4 > length {
        return false, [];
      }
      var q := Question(CStr(name), U16At(p, e), U16At(p, e + 2));
      ghost var rest := QuestionsOf(p, e + 4, n - i - 1);
      assert rest.Some? ==> qs + ([q] + rest.value) == (qs + [q]) + rest.value;
      qs, j, i := qs + [q], e + 4, i + 1;
    }
    assert qs + [] == qs;
    ok := true;
  }

  /** request_parse: the request object handed to the user's callback, or null. */
  method RequestParse(mem: seq<byte>, length: nat) returns (req: ServerRequest?)
    requires length + 63 <= |mem|
    ensures var r := RequestOf(mem[..length]);
            if r.None? then req == null
            else req != null && fresh(req) && req.Valid() && req.response == None
                 && req.answer == req.authority == req.additional == []
                 && Received(req.id, req.flagsHi, req.flagsLo, req.questions) == r.value
  {
    var p := mem[..length];
    if length < 2 || length < 4 || length < 6 || length < 8 || length < 10 || length < 12 {
      return null;
    }
    if p[2] >= 128 {
      return null; // must not be an answer
    }
    var ok, qs := ReadQuestions(mem, length, 12, U16At(p, 4));
    if !ok {
      return null;
    }
    req := new ServerRequest(U16At(p, 0), p[2] % 2, (p[3] as int) / 16 % 2 * 16, qs);
  }

  // ---------- the client reads a reply ----------

  /** An inflight request: the query that was sent, and for which type of record. */
  datatype Pending = Pending(query: seq<byte>, typ: u16)

  /** struct reply */
  datatype Reply = Reply(haveAnswer: bool, addrs: seq<seq<byte>>, ptr: seq<byte>, ttl: u32)

  const NO_REPLY := Reply(false, [], [], NO_TTL)

  /** What reply_parse does: nothing, or a call of reply_handle, with or without a reply. */
  datatype Outcome =
    | Ignored
    | Rejected(req: Pending, flagsHi: byte, flagsLo: byte)
    | Handled(req: Pending, flagsHi: byte, flagsLo: byte, ttl: u32, reply: Reply)

  /** evutil_ascii_strcasecmp(a, b) == 0 */
  function Lower(s: seq<byte>): (r: seq<byte>)
    ensures |r| == |s|
  {
    seq(|s|, i requires 0 <= i < |s| => if 65 <= s[i] <= 90 then (s[i] as int + 32) as byte else s[i])
  }

  /** The two names are the same for the client. */
  predicate SameName(a: seq<byte>, b: seq<byte>, matchCase: bool)
  {
    if matchCase then CStr(a) == CStr(b) else Lower(CStr(a)) == Lower(CStr(b))
  }

  /** The question section of a reply: where it ends, and whether a name in it is the one asked for. */
  function ReplyQuestions(p: seq<byte>, query: seq<byte>, j: nat, n: nat, found: bool,
      matchCase: bool): (r: Maybe<(nat, bool)>)
    decreases n
  {
    if n == 0 then Some((j, found)) else
      var name, asked := Parse(p, j, [], 0, NAME_BUF), Parse(query, j, [], 0, NAME_BUF);
      if name.None? || asked.None? || EndOf(p, j) + 4 > |p| then None
      else ReplyQuestions(p, query, EndOf(p, j) + 4, n - 1, found || SameName(name.value, asked.value, matchCase), matchCase)
  }

  function Min(a: nat, b: nat): (m: nat)
    ensures m <= a && m <= b && (m == a || m == b)
  {
    if a < b then a else b
  }

  /** The first `n` chunks of `size` bytes at `j`. */
  function Chunks(p: seq<byte>, j: nat, size: nat, n: nat): (r: seq<seq<byte>>)
    requires j + size * n <= |p|
    ensures |r| == n
    decreases n
  {
    if n == 0 then [] else
      assert size * n == size * (n - 1) + size;
      Chunks(p, j, size, n - 1) + [p[j + size * (n - 1)..j + size * (n - 1) + size]]
  }

  /** After one answer: an error, on to the next one, or enough. */
  datatype Step = Wrong | Next(j: nat, reply: Reply) | Enough(reply: Reply)

  /** An answer with addresses of `size` bytes. */
  function Addresses(p: seq<byte>, d: nat, len: nat, ttl: u32, size: nat, reply: Reply): (r: Step)
    requires size > 0 && |reply.addrs| <= MAX_ADDRS && d <= |p|
    ensures !r.Wrong? ==> |r.reply.addrs| <= MAX_ADDRS
  {
    if len % size != 0 then Wrong else
      var n := Min(MAX_ADDRS - |reply.addrs|, len / size);
      if d + size * n > |p| then Wrong else
        var reply' := Reply(true, reply.addrs + Chunks(p, d, size, n), reply.ptr, Min(reply.ttl, ttl));
        if |reply'.addrs| == MAX_ADDRS then Enough(reply') else Next(d + size * n, reply')
  }

  /** One answer at `j`, for a request of type `want`. */
  function Answer(p: seq<byte>, want: u16, j: nat, reply: Reply): (r: Step)
    requires |reply.addrs| <= MAX_ADDRS
    ensures !r.Wrong? ==> |r.reply.addrs| <= MAX_ADDRS
  {
    var e := EndOf(p, j);
    if Parse(p, j, [], 0, NAME_BUF).None? || e + 10 > |p| then Wrong else
      var typ, cls, ttl, len, d := U16At(p, e), U16At(p, e + 2), U32At(p, e + 4), U16At(p, e + 8), e + 10;
      if typ == TYPE_A && cls == CLASS_INET then
        if want != TYPE_A then Next(d + len, reply) else Addresses(p, d, len, ttl, 4, reply)
      else if typ == TYPE_PTR && cls == CLASS_INET then
        if want != TYPE_PTR then Next(d + len, reply) else
          var name := Parse(p, d, [], 0, HOST_NAME_MAX);
          if name.None? then Wrong else Enough(Reply(true, reply.addrs, name.value, Min(reply.ttl, ttl)))
      else if typ == TYPE_CNAME then Next(d + len, reply)
      else if typ == TYPE_AAAA && cls == CLASS_INET then
        if want != TYPE_AAAA then Next(d + len, reply) else Addresses(p, d, len, ttl, 16, reply)
      else Next(d + len, reply)
  }

  /** The answer section; `enough` says that the loop was left before its end. */
  function Answers(p: seq<byte>, want: u16, j: nat, n: nat, reply: Reply): (r: Step)
    requires |reply.addrs| <= MAX_ADDRS
    decreases n
  {
    if n == 0 then Next(j, reply) else
      match Answer(p, want, j, reply)
      case Next(j', reply') => Answers(p, want, j', n - 1, reply')
      case s => s
  }

  /** The authority section, read for its ttl when no answer was there. */
  function Authority(p: seq<byte>, j: nat, n: nat, ttl: u32): (r: Maybe<u32>)
    decreases n
  {
    if n == 0 then Some(ttl) else
      var e := EndOf(p, j);
      if Parse(p, j, [], 0, NAME_BUF).None? || e + 10 > |p| then None
      else if U16At(p, e) == TYPE_SOA && U16At(p, e + 2) == CLASS_INET then
        var e1 := EndOf(p, e + 10);
        var e2 := EndOf(p, e1);
        if Parse(p, e + 10, [], 0, NAME_BUF).None? || Parse(p, e1, [], 0, NAME_BUF).None? || e2 + 20 > |p| then None
        else Authority(p, e2 + 20, n - 1, Min(Min(ttl, U32At(p, e + 4)), U32At(p, e2 + 16)))
      else Authority(p, e + 10 + U16At(p, e + 8), n - 1, ttl)
  }

  /** Behind the questions. */
  function ReplyBody(p: seq<byte>, req: Pending, j: nat): (r: Outcome)
    requires |p| >= 12
  {
    match Answers(p, req.typ, j, U16At(p, 6), NO_REPLY)
    case Wrong => Rejected(req, p[2], p[3])
    case Enough(reply) => Finished(req, p[2], p[3], reply.ttl, reply)
    case Next(j', reply) =>
      if reply.haveAnswer then Finished(req, p[2], p[3], reply.ttl, reply) else
        var ttl := Authority(p, j', U16At(p, 8), reply.ttl);
        if ttl.None? then Rejected(req, p[2], p[3]) else Finished(req, p[2], p[3], ttl.value, reply)
  }

  function Finished(req: Pending, hi: byte, lo: byte, ttl: u32, reply: Reply): Outcome
  {
    Handled(req, hi, lo, if ttl == NO_TTL then 0 else ttl, reply)
  }

  /** flags & 0x020f is an error other than NXDOMAIN */
  predicate OtherError(hi: byte, lo: byte)
  {
    (hi / 2 % 2 == 1 || lo % 16 != 0) && !(hi / 2 % 2 == 0 && lo % 16 == DNS_ERR_NOTEXIST)
  }

  /** What a client makes of a packet. */
  function ReplyOf(p: seq<byte>, inflight: map<u16, Pending>, matchCase: bool): (r: Outcome)
  {
    if |p| < 12 || U16At(p, 0) !in inflight || p[2] < 128 then Ignored else
      var req := inflight[U16At(p, 0)];
      if OtherError(p[2], p[3]) then Rejected(req, p[2], p[3]) else
        var q := ReplyQuestions(p, req.query, 12, U16At(p, 4), false, matchCase);
        if q.None? || !q.value.1 then Rejected(req, p[2], p[3]) else ReplyBody(p, req, q.value.0)
  }

  /** The error code that reply_handle passes on; DNS_ERR_NONE with a reply that has an answer. */
  function Verdict(o: Outcome): (err: int)
    requires !o.Ignored?
  {
    var rcode := (o.flagsLo as int) % 16;
    if o.flagsHi / 2 % 2 == 0 && rcode == 0 && o.Handled? && o.reply.haveAnswer then DNS_ERR_NONE
    else if o.flagsHi / 2 % 2 == 1 then DNS_ERR_TRUNCATED
    else if rcode > 5 then DNS_ERR_UNKNOWN
    else if rcode > 0 then rcode
    else if o.Handled? then DNS_ERR_NODATA
    else DNS_ERR_UNKNOWN
  }

  // ---------- reply_parse ----------

  /** Memory behind a query. */
  const PADDING: seq<byte> := seq(63, _ => 0)

  /** The question loop of reply_parse. */
  method ReadReplyQuestions(mem: seq<byte>, length: nat, query: seq<byte>, start: nat, n: nat, matchCase: bool)
    returns (ok: bool, end: nat, found: bool)
    requires length + 63 <= |mem|
    ensures ReplyQuestions(mem[..length], query, start, n, false, matchCase) == if ok then Some((end, found)) else None
  {
    hide Parse, SameName;
    ghost var p := mem[..length];
    var j: nat, i: nat := start, 0;
    found := false;
    assert (query + PADDING)[..|query|] == query;
    while i < n
      invariant i <= n
      invariant ReplyQuestions(p, query, start, n, false, matchCase) == ReplyQuestions(p, query, j, n - i, found, matchCase)
    {
      var r, name, e := NameParse(mem, length, j, NAME_BUF);
      if r < 0 {
        return false, 0, false;
      }
      var k, asked, _ := NameParse(query + PADDING, |query|, j, NAME_BUF);
      if k < 0 {
        return false, 0, false;
      }
      if SameName(name, asked, matchCase) {
        found := true;
      }
      j := e + 4;
      if j > length {
        return false, 0, false;
      }
      i := i + 1;
    }
    return true, j, found;
  }

  /** The header of one resource record. */
  method ReadFixed(mem: seq<byte>, length: nat, start: nat) returns (ok: bool, j: nat, typ: u16, cls: u16, ttl: u32,
      len: u16)
    requires length + 63 <= |mem|
    ensures var p := mem[..length]; var e := EndOf(p, start);
            && (ok <==> Parse(p, start, [], 0, NAME_BUF).Some? && e + 10 <= |p|)
            && (ok ==> j == e + 10 && typ == U16At(p, e) && cls == U16At(p, e + 2) && ttl == U32At(p, e + 4) && len == U16At(p, e + 8))
  {
    hide Parse;
    var p := mem[..length];
    typ, cls, ttl, len := 0, 0, 0, 0;
    var r, name, e := NameParse(mem, length, start, NAME_BUF);
    j := e;
    if r < 0 || j + 2 > length || j + 4 > length || j + 8 > length || j + 10 > length {
      return false, 0, 0, 0, 0, 0;
    }
    return true, j + 10, U16At(p, j), U16At(p, j + 2), U32At(p, j + 4), U16At(p, j + 8);
  }

  /** The body of reply_parse's answer loop. */
  method ReadAnswer(mem: seq<byte>, length: nat, want: u16, start: nat, reply: Reply) returns (s: Step)
    requires length + 63 <= |mem| && |reply.addrs| <= MAX_ADDRS
    ensures s == Answer(mem[..length], want, start, reply)
  {
    hide Parse, Chunks;
    var p := mem[..length];
    var ok, j, typ, cls, ttl, len := ReadFixed(mem, length, start);
    if !ok {
      return Wrong;
    }
    if typ == TYPE_A && cls == CLASS_INET {
      if want != TYPE_A {
        return Next(j + len, reply);
      }
      return Addresses(p, j, len, ttl, 4, reply);
    } else if typ == TYPE_PTR && cls == CLASS_INET {
      if want != TYPE_PTR {
        return Next(j + len, reply);
      }
      var r, name, _ := NameParse(mem, length, j, HOST_NAME_MAX);
      if r < 0 {
        return Wrong;
      }
      return Enough(Reply(true, reply.addrs, name, Min(reply.ttl, ttl)));
    } else if typ == TYPE_CNAME {
      return Next(j + len, reply);
    } else if typ == TYPE_AAAA && cls == CLASS_INET {
      if want != TYPE_AAAA {
        return Next(j + len, reply);
      }
      return Addresses(p, j, len, ttl, 16, reply);
    }
    return Next(j + len, reply);
  }

  /** reply_parse's answer loop. */
  method ReadAnswers(mem: seq<byte>, length: nat, want: u16, start: nat, n: nat) returns (s: Step)
    requires length + 63 <= |mem|
    ensures s == Answers(mem[..length], want, start, n, NO_REPLY)
  {
    hide Answer;
    s := Next(start, NO_REPLY);
    var i: nat := 0;
    while i < n
      invariant i <= n && s.Next? && |s.reply.addrs| <= MAX_ADDRS
      invariant Answers(mem[..length], want, start, n, NO_REPLY) == Answers(mem[..length], want, s.j, n - i, s.reply)
    {
      s := ReadAnswer(mem, length, want, s.j, s.reply);
      if !s.Next? {
        return;
      }
      i := i + 1;
    }
  }

  /** reply_parse's loop over the authority section. */
  method ReadAuthority(mem: seq<byte>, length: nat, start: nat, n: nat, ttl0: u32) returns (ok: bool, ttl: u32)
    requires length + 63 <= |mem|
    ensures Authority(mem[..length], start, n, ttl0) == if ok then Some(ttl) else None
  {
    hide Parse, EndOf, U16At, U32At;
    var p := mem[..length];
    ttl := ttl0;
    var j: nat, i: nat := start, 0;
    while i < n
      invariant i <= n && Authority(p, start, n, ttl0) == Authority(p, j, n - i, ttl)
    {
      var have, d, typ, cls, ttl1, len := ReadFixed(mem, length, j);
      if !have {
        return false, 0;
      }
      if typ == TYPE_SOA && cls == CLASS_INET {
        var r, name, e := NameParse(mem, length, d, NAME_BUF);
        if r < 0 {
          return false, 0;
        }
        r, name, e := NameParse(mem, length, e, NAME_BUF);
        if r < 0 || e + 4 > length || e + 8 > length || e + 12 > length || e + 16 > length || e + 20 > length {
          return false, 0;
        }
        ttl := Min(ttl, ttl1);
        ttl := Min(ttl, U32At(p, e + 16));
        j := e + 20;
      } else {
        j := d + len;
      }
      i := i + 1;
    }
    ok := true;
  }

  /** reply_parse: its result, and the call of reply_handle that it makes. */
  method ReplyParse(mem: seq<byte>, length: nat, inflight: map<u16, Pending>, matchCase: bool) returns (r: int,
      o: Outcome)
    requires length + 63 <= |mem|
    ensures o == ReplyOf(mem[..length], inflight, matchCase)
    ensures r == if o.Handled? then 0 else -1
  {
    hide ReplyQuestions, Answers, Authority;
    var p := mem[..length];
    if length < 2 || length < 4 || length < 6 || length < 8 || length < 10 || length < 12 {
      return -1, Ignored;
    }
    var id := U16At(p, 0);
    if id !in inflight {
      return -1, Ignored;
    }
    var req := inflight[id];
    if p[2] < 128 {
      return -1, Ignored;
    }
    var failed := Rejected(req, p[2], p[3]);
    if OtherError(p[2], p[3]) {
      return -1, failed;
    }
    var ok, j, found := ReadReplyQuestions(mem, length, req.query, 12, U16At(p, 4), matchCase);
    if !ok || !found {
      return -1, failed;
    }
    var s := ReadAnswers(mem, length, req.typ, j, U16At(p, 6));
    if s.Wrong? {
      return -1, failed;
    }
    var ttl := s.reply.ttl;
    if !s.reply.haveAnswer {
      if s.Next? {
        ok, ttl := ReadAuthority(mem, length, s.j, U16At(p, 8), ttl);
        if !ok {
          return -1, failed;
        }
      }
    }
    return 0, Handled(req, p[2], p[3], if ttl == NO_TTL then 0 else ttl, s.reply);
  }
}
