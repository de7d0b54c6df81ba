/** Writing names into DNS messages with name compression (evdns.c). */
module DnsLabels {
  import opened Options
  import opened Bytes
  import opened DnsNames

  // ---------- names as text ----------

  /** strchr(s, '.'): the index of the first dot, or the length. */
  function Dot(s: seq<byte>): (d: nat)
    ensures d <= |s| && DOT !in s[..d] && (d < |s| ==> s[d] == DOT)
  {
    if s == [] || s[0] == DOT then 0 else 1 + Dot(s[1..])
  }

  /** The labels of a name, up to the first empty one, which ends it in a message. */
  function NameLabels(s: seq<byte>): (ls: seq<seq<byte>>)
    decreases |s|
  {
    var d := Dot(s);
    if d == 0 then [] else if d == |s| then [s] else [s[..d]] + NameLabels(s[d + 1..])
  }

  /** No label is empty; the name may end in a dot. */
  predicate Proper(s: seq<byte>)
    decreases |s|
  {
    s == [] || (Dot(s) > 0 && (Dot(s) == |s| || Proper(s[Dot(s) + 1..])))
  }

  /** The name without the dot at its end. */
  function Trim(s: seq<byte>): seq<byte>
  {
    if s != [] && s[|s| - 1] == DOT then s[..|s| - 1] else s
  }

  /** A C string. */
  predicate NoNul(s: seq<byte>)
  {
    forall i | 0 <= i < |s| :: s[i] != 0
  }

  lemma {:induction false} TrimSplit(s: seq<byte>, d: nat)
    requires d < |s| && s[d] == DOT
    ensures Trim(s) == if d + 1 == |s| then s[..d] else s[..d] + [DOT] + Trim(s[d + 1..])
  {
    assert d + 1 < |s| ==> s == s[..d] + [DOT] + s[d + 1..];
  }

  lemma {:induction false} TrimNoDot(s: seq<byte>)
    requires DOT !in s
    ensures Trim(s) == s
  {
  }

  lemma {:induction false} WithTwo(out: seq<byte>, a: seq<byte>, b: seq<byte>)
    requires a != []
    ensures WithLabel(WithLabel(out, a), b) == WithLabel(out, a + [DOT] + b)
  {
    assert out + [DOT] + a + [DOT] + b == out + [DOT] + (a + [DOT] + b);
  }

  /** The labels of a proper name, put together again, are the name. */
  lemma {:induction false} TextOfLabels(out: seq<byte>, s: seq<byte>)
    requires Proper(s)
    ensures Text(out, NameLabels(s)) == if s == [] then out else WithLabel(out, Trim(s))
    decreases |s|
  {
    hide WithLabel, Trim;
    var d := Dot(s);
    if s == [] {
    } else if d == |s| {
      assert [s][1..] == [];
      TrimNoDot(s);
    } else {
      var rest := s[d + 1..];
      assert NameLabels(s)[1..] == NameLabels(rest);
      TextOfLabels(WithLabel(out, s[..d]), rest);
      TrimSplit(s, d);
      WithTwo(out, s[..d], Trim(rest));
    }
  }

  // ---------- the encoding as a function ----------

  /** dnslabel_table: names already in the message and where. */
  type Entries = seq<(seq<byte>, nat)>

  function Lookup(t: Entries, name: seq<byte>): (r: Maybe<nat>)
    ensures r.None? ==> forall i | 0 <= i < |t| :: t[i].0 != name
    ensures r.Some? ==> (name, r.value) in t
  {
    if t == [] then None else if t[0].0 == name then Some(t[0].1) else Lookup(t[1..], name)
  }

  function Remember(t: Entries, name: seq<byte>, pos: nat): Entries
  {
    if |t| == MAX_LABELS then t else t + [(name, pos)]
  }

  /** htons(ref | 0xc000), as bytes */
  function Pointer(ref: nat): seq<byte>
  {
    [192 + ref / 256 % 64, ref % 256]
  }

  datatype Coded = Coded(bytes: seq<byte>, table: Maybe<Entries>) | Failed(code: int, table: Maybe<Entries>)

  /** What the loop of dnsname_to_labels writes at `pos`. */
  function Code(pos: nat, bufLen: nat, name: seq<byte>, t: Maybe<Entries>): (r: Coded)
    decreases |name|
  {
    if t.Some? && Lookup(t.value, name).Some? then
      if pos + 2 > bufLen then Failed(-2, t) else Coded(Pointer(Lookup(t.value, name).value), t)
    else
      var d := Dot(name);
      if d > 63 then Failed(-1, t)
      else if pos + d + 1 > bufLen then Failed(-2, t)
      else
        var t' := if t.Some? then Some(Remember(t.value, name, pos)) else None;
        if d == |name| then Coded([d] + name + (if d > 0 then [0] else []), t')
        else
          var rest := Code(pos + d + 1, bufLen, name[d + 1..], t');
          if rest.Failed? then rest else Coded([d] + name[..d] + rest.bytes, rest.table)
  }

  // ---------- what it decodes to ----------

  /** The message holds these labels at `j`. */
  ghost predicate Names(p: seq<byte>, j: nat, ls: seq<seq<byte>>)
  {
    exists h: nat :: NameAt(p, j, ls, h)
  }

  /** Every entry's name is in the message where the entry says. */
  ghost predicate TableOk(p: seq<byte>, t: Entries)
  {
    forall i | 0 <= i < |t| :: Names(p, t[i].1, NameLabels(t[i].0))
  }

  /** ... but for the names that end in `name` and are only written in part. */
  ghost predicate TablePending(p: seq<byte>, t: Entries, name: seq<byte>)
  {
    forall i | 0 <= i < |t| :: |t[i].0| > |name| || Names(p, t[i].1, NameLabels(t[i].0))
  }

  lemma {:induction false} NamesStay(p: seq<byte>, more: seq<byte>, j: nat, ls: seq<seq<byte>>)
    requires Names(p, j, ls)
    ensures Names(p + more, j, ls) && j < |p| && EndOf(p + more, j) == EndOf(p, j)
  {
    var h: nat :| NameAt(p, j, ls, h);
    NameStays(p, more, j, ls, h);
  }

  lemma {:induction false} TableStays(p: seq<byte>, more: seq<byte>, t: Entries)
    requires TableOk(p, t)
    ensures TableOk(p + more, t)
  {
    forall i | 0 <= i < |t|
      ensures Names(p + more, t[i].1, NameLabels(t[i].0))
    {
      NamesStay(p, more, t[i].1, NameLabels(t[i].0));
    }
  }

  /** A label in front of a name is a name. */
  lemma {:induction false} LabelName(p: seq<byte>, j: nat, chars: seq<byte>, ls: seq<seq<byte>>)
    requires 0 < |chars| < 64 && j + 1 + |chars| <= |p| && p[j] == |chars| && p[j + 1..j + 1 + |chars|] == chars
    requires Names(p, j + 1 + |chars|, ls)
    ensures Names(p, j, [chars] + ls)
    ensures EndOf(p, j) == EndOf(p, j + 1 + |chars|)
  {
    var h: nat :| NameAt(p, j + 1 + |chars|, ls, h);
    assert ([chars] + ls)[1..] == ls;
    assert NameAt(p, j, [chars] + ls, h);
  }

  lemma {:induction false} PointerName(p: seq<byte>, j: nat, ref: nat, ls: seq<seq<byte>>)
    requires j + 2 <= |p| && p[j..j + 2] == Pointer(ref) && ref < 0x4000 && Names(p, ref, ls)
    ensures Names(p, j, ls) && EndOf(p, j) == j + 2
  {
    var h: nat :| NameAt(p, ref, ls, h);
    assert p[j] == p[j..j + 2][0] && p[j + 1] == p[j..j + 2][1];
    assert Target(p[j], p[j + 1]) == ref;
    assert NameAt(p, j, ls, h + 1);
  }

  lemma {:induction false} ZeroName(p: seq<byte>, j: nat)
    requires j < |p| && p[j] == 0
    ensures Names(p, j, []) && EndOf(p, j) == j + 1
  {
    assert NameAt(p, j, [], 0);
  }

  /** What one step of the encoder leaves: `name` at the end of `p`, and the entries from `n` on. */
  ghost predicate Written(q: seq<byte>, j: nat, name: seq<byte>, n: nat, t: Maybe<Entries>)
  {
    && Names(q, j, NameLabels(name))
    && (Proper(name) ==> EndOf(q, j) == |q|)
    && (t.Some? ==> n <= |t.value| && forall i | n <= i < |t.value| :: Names(q, t.value[i].1, NameLabels(t.value[i].0)))
  }

  lemma {:induction false} CodePointer(p: seq<byte>, bufLen: nat, name: seq<byte>, t: Entries)
    requires bufLen <= 0x4000 && |p| + 2 <= bufLen && TablePending(p, t, name) && Lookup(t, name).Some?
    ensures Written(p + Pointer(Lookup(t, name).value), |p|, name, |t|, Some(t))
  {
    var ref := Lookup(t, name).value;
    var q := p + Pointer(ref);
    assert Names(p, ref, NameLabels(name));
    NamesStay(p, Pointer(ref), ref, NameLabels(name));
    PointerName(q, |p|, ref, NameLabels(name));
  }

  lemma {:induction false} LabelsLast(name: seq<byte>)
    requires Dot(name) == |name|
    ensures NameLabels(name) == (if name == [] then [] else [name]) && Proper(name)
  {
    hide Dot;
  }

  lemma {:induction false} OneNew(t: Entries, name: seq<byte>, pos: nat)
    ensures t <= Remember(t, name, pos) && forall i | |t| <= i < |Remember(t, name, pos)| :: Remember(t, name, pos)[i] == (name, pos)
  {
  }

  lemma {:induction false} LabelsFirst(name: seq<byte>)
    requires Dot(name) < |name|
    ensures var d := Dot(name);
            NameLabels(name) == if d == 0 then [] else [name[..d]] + NameLabels(name[d + 1..])
  {
    hide Dot;
  }

  lemma {:induction false} ProperFirst(name: seq<byte>)
    requires Dot(name) < |name|
    ensures Proper(name) <==> Dot(name) > 0 && Proper(name[Dot(name) + 1..])
  {
    hide Dot;
  }

  /** The bytes of one label behind message `p`. */
  lemma {:induction false} LabelBytes(p: seq<byte>, chars: seq<byte>, rest: seq<byte>)
    requires |chars| < 64
    ensures var q := p + ([|chars|] + chars + rest);
            && |q| == |p| + 1 + |chars| + |rest| && q[|p|] == |chars| && q[|p| + 1..|p| + 1 + |chars|] == chars
            && (rest != [] ==> q[|p| + 1 + |chars|] == rest[0])
  {
  }

  lemma {:induction false} CodeLast(p: seq<byte>, name: seq<byte>, t: Maybe<Entries>)
    requires Dot(name) == |name| < 64
    ensures Written(p + ([|name|] + name + (if name != [] then [0] else [])), |p|, name, if t.Some? then |t.value| else 0,
              if t.Some? then Some(Remember(t.value, name, |p|)) else None)
  {
    hide Names, NameLabels, Proper, EndOf, Dot, Remember;
    LabelsLast(name);
    if t.Some? {
      OneNew(t.value, name, |p|);
    }
    var rest := if name != [] then [0] else [];
    var q := p + ([|name|] + name + rest);
    LabelBytes(p, name, rest);
    if name == [] {
      ZeroName(q, |p|);
    } else {
      ZeroName(q, |p| + 1 + |name|);
      LabelName(q, |p|, name, []);
      assert [name] + [] == [name];
    }
  }

  /** One label, the rest of the name having been written behind it. */
  lemma {:induction false} CodeFirst(p: seq<byte>, name: seq<byte>, rest: seq<byte>, t: Maybe<Entries>,
      t2: Maybe<Entries>)
    requires Dot(name) < |name| && Dot(name) < 64 && (t.Some? <==> t2.Some?)
    requires t.Some? ==> Remember(t.value, name, |p|) <= t2.value
    requires var d := Dot(name);
             Written(p + ([d] + name[..d] + rest), |p| + 1 + d, name[d + 1..], if t.Some? then |Remember(t.value, name, |p|)| else 0, t2)
    ensures Written(p + ([Dot(name)] + name[..Dot(name)] + rest), |p|, name, if t.Some? then |t.value| else 0, t2)
  {
    hide Names, NameLabels, Proper, EndOf, Dot;
    var d := Dot(name);
    var chars := name[..d];
    LabelsFirst(name);
    ProperFirst(name);
    LabelBytes(p, chars, rest);
    var q := p + ([|chars|] + chars + rest);
    if d == 0 {
      ZeroName(q, |p|);
    } else {
      LabelName(q, |p|, chars, NameLabels(name[d + 1..]));
    }
    assert Names(q, |p|, NameLabels(name));
  }

  lemma {:induction false} Pending(p: seq<byte>, more: seq<byte>, name: seq<byte>, rest: seq<byte>, t: Entries,
      pos: nat)
    requires TablePending(p, t, name) && |rest| < |name|
    ensures TablePending(p + more, Remember(t, name, pos), rest)
  {
    var t' := Remember(t, name, pos);
    forall i | 0 <= i < |t'| && |t'[i].0| <= |rest|
      ensures Names(p + more, t'[i].1, NameLabels(t'[i].0))
    {
      NamesStay(p, more, t[i].1, NameLabels(t[i].0));
    }
  }

  /** The three ways in which the encoder goes on. */
  lemma {:induction false} CodeCases(pos: nat, bufLen: nat, name: seq<byte>, t: Maybe<Entries>)
    requires Code(pos, bufLen, name, t).Coded?
    ensures var d, r, t' := Dot(name), Code(pos, bufLen, name, t), if t.Some? then Some(Remember(t.value, name, pos)) else None;
            if t.Some? && Lookup(t.value, name).Some? then
              pos + 2 <= bufLen && r == Coded(Pointer(Lookup(t.value, name).value), t)
            else if d == |name| then
              d < 64 && r == Coded([d] + name + (if d > 0 then [0] else []), t')
            else
              && d < 64 && Code(pos + d + 1, bufLen, name[d + 1..], t').Coded?
              && r.bytes == [d] + name[..d] + Code(pos + d + 1, bufLen, name[d + 1..], t').bytes
              && r.table == Code(pos + d + 1, bufLen, name[d + 1..], t').table
  {
    hide Dot, Lookup, Remember;
  }

  /**
   The central fact about compression: a name written behind message `p`
   decodes to its labels, and so does each suffix of it that the table now
   knows, at the place the table says.
  */
  lemma {:induction false} CodeDecodes(p: seq<byte>, bufLen: nat, name: seq<byte>, t: Maybe<Entries>)
    requires Code(|p|, bufLen, name, t).Coded?
    requires t.Some? ==> bufLen <= 0x4000 && TablePending(p, t.value, name)
    ensures var r := Code(|p|, bufLen, name, t);
            && (t.Some? <==> r.table.Some?) && (t.Some? ==> t.value <= r.table.value)
            && Written(p + r.bytes, |p|, name, if t.Some? then |t.value| else 0, r.table)
    decreases |name|
  {
    hide Written, TablePending, NameLabels, Dot, Code, Lookup, Remember, Proper;
    var d := Dot(name);
    CodeCases(|p|, bufLen, name, t);
    if t.Some? {
      OneNew(t.value, name, |p|);
    }
    if t.Some? && Lookup(t.value, name).Some? {
      CodePointer(p, bufLen, name, t.value);
    } else if d == |name| {
      CodeLast(p, name, t);
    } else {
      var t' := if t.Some? then Some(Remember(t.value, name, |p|)) else None;
      var head := [d] + name[..d];
      if t.Some? {
        Pending(p, head, name, name[d + 1..], t.value, |p|);
      }
      CodeDecodes(p + head, bufLen, name[d + 1..], t');
      var rest := Code(|p| + d + 1, bufLen, name[d + 1..], t');
      assert p + (head + rest.bytes) == (p + head) + rest.bytes;
      CodeFirst(p, name, rest.bytes, t, rest.table);
    }
  }

  /** A table that is right stays right. */
  lemma {:induction false} CodeKeepsTable(p: seq<byte>, bufLen: nat, name: seq<byte>, t: Entries)
    requires bufLen <= 0x4000 && TableOk(p, t) && Code(|p|, bufLen, name, Some(t)).Coded?
    ensures var r := Code(|p|, bufLen, name, Some(t));
            && r.table.Some? && t <= r.table.value && TableOk(p + r.bytes, r.table.value)
            && Names(p + r.bytes, |p|, NameLabels(name)) && (Proper(name) ==> EndOf(p + r.bytes, |p|) == |p + r.bytes|)
  {
    hide Code;
    var r := Code(|p|, bufLen, name, Some(t));
    CodeDecodes(p, bufLen, name, Some(t));
    TableStays(p, r.bytes, t);
    assert forall i | 0 <= i < |t| :: r.table.value[i] == t[i];
  }

  /** name_parse after dnsname_to_labels returns the name, up to its first empty label. */
  lemma {:induction false} RoundTrip(p: seq<byte>, j: nat, name: seq<byte>)
    requires Names(p, j, NameLabels(name))
    ensures var text := Text([], NameLabels(name)); Parse(p, j, [], 0, 256) == if |text| < 256 then Some(text) else None
  {
    var ls := NameLabels(name);
    var h: nat :| NameAt(p, j, ls, h);
    ParseIsName(p, j, 256, Text([], ls));
    if Parse(p, j, [], 0, 256).Some? {
      var ls', h' := ParseSound(p, j, [], 0, 256);
      NameUnique(p, j, ls, h, ls', h');
    }
  }

  // ---------- dnsname_to_labels ----------

  /** struct dnslabel_table */
  class LabelTable {
    var labels: Entries

    /** dnslabel_table_init */
    constructor ()
      ensures labels == []
    {
      labels := [];
    }

    /** dnslabel_table_get_pos */
    method GetPos(name: seq<byte>) returns (r: int)
      ensures r == match Lookup(labels, name) case Some(pos) => pos case None => -1
    {
      var i := 0;
      while i < |labels|
        invariant i <= |labels| && Lookup(labels, name) == Lookup(labels[i..], name)
      {
        if labels[i].0 == name {
          return labels[i].1;
        }
        assert labels[i..][1..] == labels[i + 1..];
        i := i + 1;
      }
      r := -1;
    }

    /** dnslabel_table_add */
    method Add(name: seq<byte>, pos: nat) returns (r: int)
      modifies this
      ensures labels == Remember(old(labels), name, pos)
      ensures r == if |old(labels)| == MAX_LABELS then -1 else 0
    {
      if |labels| == MAX_LABELS {
        return -1;
      }
      labels := labels + [(name, pos)];
      r := 0;
    }
  }

  ghost function TableOf(table: LabelTable?): Maybe<Entries>
    reads table
  {
    if table == null then None else Some(table.labels)
  }

  /** memcpy into the message, behind `before + w` */
  method Put(buf: array<byte>, at: nat, d: seq<byte>, ghost before: seq<byte>, ghost w: seq<byte>)
    requires at + |d| <= buf.Length && buf[..at] == before + w
    modifies buf
    ensures buf[..at + |d|] == before + (w + d)
    ensures forall i | at + |d| <= i < buf.Length :: buf[i] == old(buf[i])
  {
    forall i | 0 <= i < |d| {
      buf[at + i] := d[i];
    }
    assert buf[..at] == before + w;
    assert buf[..at + |d|] == buf[..at] + d;
    assert (before + w) + d == before + (w + d);
  }

  /** `w` has been written before `c`. */
  function Behind(w: seq<byte>, c: Coded): Coded
  {
    if c.Failed? then c else Coded(w + c.bytes, c.table)
  }

  lemma {:induction false} BehindIs(w: seq<byte>, c: Coded)
    ensures Behind(w, c) == if c.Failed? then c else Coded(w + c.bytes, c.table)
    ensures w == [] ==> Behind(w, c) == c
  {
    if c.Coded? {
      assert [] + c.bytes == c.bytes;
    }
  }

  /** The encoder's loop writes one label and goes on. */
  lemma {:induction false} CodeStep(pos: nat, bufLen: nat, name: seq<byte>, t: Maybe<Entries>)
    requires t.Some? ==> Lookup(t.value, name).None?
    requires Dot(name) < |name| && Dot(name) < 64 && pos + Dot(name) + 1 <= bufLen
    ensures var d := Dot(name); var t' := if t.Some? then Some(Remember(t.value, name, pos)) else None;
            Code(pos, bufLen, name, t) == Behind([d] + name[..d], Code(pos + d + 1, bufLen, name[d + 1..], t'))
  {
    hide Dot, Lookup, Remember;
  }

  /** How the encoder's loop ends. */
  lemma {:induction false} CodeEnd(pos: nat, bufLen: nat, name: seq<byte>, t: Maybe<Entries>)
    ensures var d, c := Dot(name), Code(pos, bufLen, name, t);
            if t.Some? && Lookup(t.value, name).Some? then
              c == if pos + 2 > bufLen then Failed(-2, t) else Coded(Pointer(Lookup(t.value, name).value), t)
            else if d > 63 then c == Failed(-1, t)
            else if pos + d + 1 > bufLen then c == Failed(-2, t)
            else d == |name| ==>
              c == Coded([d] + name + (if d > 0 then [0] else []), if t.Some? then Some(Remember(t.value, name, pos)) else None)
  {
    hide Dot, Lookup, Remember;
  }

  lemma {:induction false} BehindTwice(w: seq<byte>, v: seq<byte>, c: Coded)
    ensures Behind(w, Behind(v, c)) == Behind(w + v, c)
  {
    if c.Coded? {
      assert (w + v) + c.bytes == w + (v + c.bytes);
    }
  }

  /** A name the table knows becomes a pointer. */
  method TryPointer(buf: array<byte>, bufLen: nat, j: nat, name: seq<byte>, table: LabelTable,
      ghost before: seq<byte>, ghost w: seq<byte>)
    returns (hit: bool, r: int)
    requires bufLen < buf.Length && j <= buf.Length && buf[..j] == before + w
    modifies buf
    ensures hit <==> Lookup(table.labels, name).Some?
    ensures !hit || r < 0 ==> unchanged(buf)
    ensures forall i | bufLen <= i < buf.Length :: buf[i] == old(buf[i])
    ensures hit && j + 2 > bufLen ==> r == -2
    ensures hit && j + 2 <= bufLen ==>
      && r == j + 2 && buf[..r] == before + (w + Pointer(Lookup(table.labels, name).value))
  {
    hide Lookup, Pointer;
    var ref := table.GetPos(name);
    if ref < 0 {
      return false, 0;
    }
    if j + 2 > bufLen {
      return true, -2;
    }
    PointerBytes(ref);
    Put(buf, j, [192 + ref / 256 % 64, ref % 256], before, w);
    return true, j + 2;
  }

  /** The first label of `name`: remembered and written, or an error. */
  method PutLabel(buf: array<byte>, bufLen: nat, j: nat, name: seq<byte>, table: LabelTable?, ghost before: seq<byte>,
      ghost w: seq<byte>)
    returns (r: int)
    requires bufLen < buf.Length && j <= buf.Length && buf[..j] == before + w
    modifies buf, table
    ensures forall i | bufLen <= i < buf.Length :: buf[i] == old(buf[i])
    ensures Dot(name) > 63 ==> r == -1
    ensures Dot(name) <= 63 && j + Dot(name) + 1 > bufLen ==> r == -2
    ensures r < 0 ==>
      unchanged(buf) && TableOf(table) == old(TableOf(table)) && (Dot(name) > 63 || j + Dot(name) + 1 > bufLen)
    ensures r >= 0 ==>
      && Dot(name) <= 63 && r == j + Dot(name) + 1 <= bufLen
      && buf[..r] == before + (w + ([Dot(name)] + name[..Dot(name)]))
      && TableOf(table) == if table == null then None else Some(Remember(old(table.labels), name, j))
  {
    hide Dot, Remember;
    var labelLen: nat := Dot(name);
    if labelLen > 63 {
      return -1;
    }
    if j + labelLen + 1 > bufLen {
      return -2;
    }
    if table != null {
      var _ := table.Add(name, j);
    }
    Put(buf, j, [labelLen] + name[..labelLen], before, w);
    return j + 1 + labelLen;
  }

  /** The loop of dnsname_to_labels: the result, or where the last label ends. */
  method WriteLabels(buf: array<byte>, bufLen: nat, pos: nat, name: seq<byte>, table: LabelTable?)
    returns (done: bool, r: int, ghost w: seq<byte>)
    requires bufLen < buf.Length && pos <= buf.Length && NoNul(name)
    modifies buf, table
    ensures buf[..pos] == old(buf[..pos])
    ensures forall i | bufLen <= i < buf.Length :: buf[i] == old(buf[i])
    ensures var c := Code(pos, bufLen, name, old(TableOf(table)));
            && TableOf(table) == c.table
            && if c.Failed? then done && r == c.code < 0
               else 0 <= r <= bufLen && r == pos + |w| && buf[..r] == old(buf[..pos]) + w
                    && if done then w == c.bytes else w != [] && c.bytes == w + if w[|w| - 1] != 0 then [0] else []
  {
    hide Code, Dot, Lookup, Remember, Pointer, NoNul, Behind;
    ghost var c := Code(pos, bufLen, name, TableOf(table));
    ghost var before := buf[..pos];
    var j: nat, rest := pos, name;
    w := [];
    BehindIs([], c);
    while true
      invariant (j <= bufLen || j == pos) && NoNul(rest) && j == pos + |w| <= buf.Length && buf[..j] == before + w
      invariant c == Behind(w, Code(j, bufLen, rest, TableOf(table)))
      invariant forall i | bufLen <= i < buf.Length :: buf[i] == old(buf[i])
      decreases |rest|
    {
      ghost var t := TableOf(table);
      CodeEnd(j, bufLen, rest, t);
      BehindIs(w, Code(j, bufLen, rest, t));
      if table != null {
        var hit, at := TryPointer(buf, bufLen, j, rest, table, before, w);
        if hit {
          return true, at, if at < 0 then w else w + Pointer(Lookup(t.value, rest).value);
        }
      }
      var at := PutLabel(buf, bufLen, j, rest, table, before, w);
      if at < 0 {
        return true, at, w;
      }
      var labelLen: nat := Dot(rest);
      ghost var bytes := [labelLen] + rest[..labelLen];
      if labelLen == |rest| {
        LastByte(w, rest, c, TableOf(table));
        return false, at, w + bytes;
      }
      NoNulFrom(rest, labelLen + 1);
      CodeStep(j, bufLen, rest, t);
      BehindTwice(w, bytes, Code(at, bufLen, rest[labelLen + 1..], TableOf(table)));
      j, rest, w := at, rest[labelLen + 1..], w + bytes;
    }
  }

  lemma {:induction false} NoNulFrom(name: seq<byte>, k: nat)
    requires NoNul(name) && k <= |name|
    ensures NoNul(name[k..])
  {
  }

  lemma {:induction false} LastByte(w: seq<byte>, name: seq<byte>, c: Coded, t: Maybe<Entries>)
    requires NoNul(name) && |name| < 64
    requires c == Behind(w, Coded([|name|] + name + (if |name| > 0 then [0] else []), t))
    ensures var v := w + ([|name|] + name[..|name|]);
            v != [] && c == Coded(v + (if v[|v| - 1] != 0 then [0] else []), t)
  {
    assert name[..|name|] == name;
    var v := w + ([|name|] + name);
    assert v[|v| - 1] != 0 <==> name != [];
    assert w + ([|name|] + name + (if |name| > 0 then [0] else [])) == v + (if name != [] then [0] else []);
  }

  lemma {:induction false} PointerBytes(ref: nat)
    ensures Pointer(ref) == [192 + ref / 256 % 64, ref % 256]
  {
  }

  /** What the encoder makes of a whole name. */
  function Encode(pos: nat, bufLen: nat, name: seq<byte>, t: Maybe<Entries>): Coded
  {
    if |name| > 255 then Failed(-2, t) else Code(pos, bufLen, name, t)
  }

  /**
   dnsname_to_labels.  The closing zero is written without a look at
   `buf_len`, so the memory must go on for one byte behind the buffer.
  */
  method DnsnameToLabels(buf: array<byte>, bufLen: nat, pos: nat, name: seq<byte>, table: LabelTable?) returns (r: int)
    requires bufLen < buf.Length && pos <= buf.Length && NoNul(name)
    modifies buf, table
    ensures buf[..pos] == old(buf[..pos])
    ensures forall i | bufLen < i < buf.Length :: buf[i] == old(buf[i])
    ensures buf[bufLen] == if r > bufLen then 0 else old(buf[bufLen])
    ensures var c := Encode(pos, bufLen, name, old(TableOf(table)));
            && TableOf(table) == c.table
            && if c.Failed? then r == c.code < 0
               else r == pos + |c.bytes| <= bufLen + 1 && buf[..r] == old(buf[..pos]) + c.bytes
  {
    hide Code;
    if |name| > 255 {
      return -2;
    }
    ghost var before := buf[..pos];
    var done; ghost var w;
    done, r, w := WriteLabels(buf, bufLen, pos, name, table);
    if done {
      return;
    }
    if r == 0 || buf[r - 1] != 0 {
      Put(buf, r, [0], before, w);
      r := r + 1;
    }
  }

  // ---------- what compression saves ----------

  /** A name that has been written before takes two bytes; one that ends in such a name, two and its own labels. */
  lemma {:induction false} Shortened(pos: nat, bufLen: nat, first: seq<byte>, known: seq<byte>, t: Entries)
    requires (exists i :: 0 <= i < |t| && t[i].0 == known) && DOT !in first && |first| <= 63
    requires forall i | 0 <= i < |t| :: t[i].0 != first + [DOT] + known
    ensures pos + 2 <= bufLen ==>
      Code(pos, bufLen, known, Some(t)).Coded? && |Code(pos, bufLen, known, Some(t)).bytes| == 2
    ensures pos + |first| + 3 <= bufLen ==>
      var c := Code(pos, bufLen, first + [DOT] + known, Some(t)); c.Coded? && |c.bytes| == |first| + 3
  {
    var name := first + [DOT] + known;
    DotFirst(first, known);
    assert name[|first| + 1..] == known;
    var i :| 0 <= i < |t| && t[i].0 == known;
    var more := Remember(t, name, pos);
    assert more[i] == t[i];
    assert Lookup(more, known).Some? && Lookup(t, known).Some? && Lookup(t, name).None?;
  }

  lemma {:induction false} DotFirst(first: seq<byte>, rest: seq<byte>)
    requires DOT !in first
    ensures Dot(first + [DOT] + rest) == |first|
    decreases |first|
  {
    if first == [] {
      assert first + [DOT] + rest == [DOT] + rest;
    } else {
      DotFirst(first[1..], rest);
      assert (first + [DOT] + rest)[1..] == first[1..] + [DOT] + rest;
    }
  }

  /** As long as the table has room, a name that is written is known from then on. */
  lemma {:induction false} Remembered(pos: nat, bufLen: nat, name: seq<byte>, t: Entries)
    requires |t| < MAX_LABELS && Code(pos, bufLen, name, Some(t)).Coded?
    ensures var r := Code(pos, bufLen, name, Some(t)); r.table.Some? && exists i :: 0 <= i < |r.table.value| && r.table.value[i].0 == name
  {
    if Lookup(t, name).Some? {
      var i :| 0 <= i < |t| && t[i] == (name, Lookup(t, name).value);
    } else {
      var more := Remember(t, name, pos);
      assert more[|t|].0 == name;
      if Dot(name) < |name| {
        TableGrows(pos + Dot(name) + 1, bufLen, name[Dot(name) + 1..], more);
        assert Code(pos, bufLen, name, Some(t)).table.value[|t|] == more[|t|];
      }
    }
  }

  lemma {:induction false} TableGrows(pos: nat, bufLen: nat, name: seq<byte>, t: Entries)
    requires Code(pos, bufLen, name, Some(t)).Coded?
    ensures var r := Code(pos, bufLen, name, Some(t)); r.table.Some? && t <= r.table.value
    decreases |name|
  {
    hide Lookup;
    if Lookup(t, name).None? && Dot(name) < |name| {
      TableGrows(pos + Dot(name) + 1, bufLen, name[Dot(name) + 1..], Remember(t, name, pos));
    }
  }

  // ---------- when a name without compression fits ----------

  /** No label is longer than 63 bytes. */
  predicate ShortLabels(s: seq<byte>)
    decreases |s|
  {
    Dot(s) <= 63 && (Dot(s) == |s| || ShortLabels(s[Dot(s) + 1..]))
  }

  /** The name needs a zero byte behind its last label. */
  predicate NeedsZero(s: seq<byte>)
  {
    s != [] && s[|s| - 1] != DOT
  }

  /** Neither the name nor what follows one of its dots is in the table. */
  predicate Fresh(name: seq<byte>, t: Entries)
    decreases |name|
  {
    Lookup(t, name).None? && (Dot(name) == |name| || Fresh(name[Dot(name) + 1..], t))
  }

  predicate FreshIn(name: seq<byte>, t: Maybe<Entries>)
  {
    t.Some? ==> Fresh(name, t.value)
  }

  lemma {:induction false} LookupStays(t: Entries, name: seq<byte>, longer: seq<byte>, pos: nat)
    requires longer != name
    ensures Lookup(t + [(longer, pos)], name) == Lookup(t, name)
  {
    if t == [] {
      assert ([] + [(longer, pos)])[1..] == [];
    } else {
      assert (t + [(longer, pos)])[1..] == t[1..] + [(longer, pos)];
      LookupStays(t[1..], name, longer, pos);
    }
  }

  /** Remembering a longer name makes no shorter one known. */
  lemma {:induction false} FreshStays(name: seq<byte>, t: Entries, longer: seq<byte>, pos: nat)
    requires |longer| > |name|
    ensures Fresh(name, Remember(t, longer, pos)) == Fresh(name, t)
    decreases |name|
  {
    hide Lookup;
    LookupStays(t, name, longer, pos);
    if Dot(name) < |name| {
      FreshStays(name[Dot(name) + 1..], t, longer, pos);
    }
  }

  /**
   When the encoder succeeds, and where it ends.  A name that the table does
   not help with is encoded exactly when its labels are short and the text and one
   byte fit.  The closing zero lands one byte behind the buffer exactly when
   there is one, the table does not help, and the rest fills the buffer.
  */
  lemma {:induction false} CodeEnds(pos: nat, bufLen: nat, name: seq<byte>, t: Maybe<Entries>)
    ensures FreshIn(name, t) ==> (Code(pos, bufLen, name, t).Coded? <==> ShortLabels(name) && pos + |name| + 1 <= bufLen)
    ensures Code(pos, bufLen, name, t).Coded? ==>
      var end := pos + |Code(pos, bufLen, name, t).bytes|;
      && (FreshIn(name, t) ==> end == pos + |name| + 1 + (if NeedsZero(name) then 1 else 0))
      && (end > bufLen <==> FreshIn(name, t) && NeedsZero(name) && pos + |name| + 1 == bufLen)
    decreases |name|
  {
    hide Lookup, Remember, Dot, NeedsZero;
    var d := Dot(name);
    ZeroLast(name);
    if d < |name| {
      var rest, t' := name[d + 1..], if t.Some? then Some(Remember(t.value, name, pos)) else None;
      if t.Some? {
        FreshStays(rest, t.value, name, pos);
      }
      CodeEnds(pos + d + 1, bufLen, rest, t');
    }
  }

  /** The last label decides about the closing zero. */
  lemma {:induction false} ZeroLast(name: seq<byte>)
    ensures if Dot(name) < |name| then NeedsZero(name) == NeedsZero(name[Dot(name) + 1..])
            else NeedsZero(name) == (Dot(name) > 0)
    decreases |name|
  {
  }
}
