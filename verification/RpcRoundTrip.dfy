/**
 Generated unmarshal code undoes generated marshal code, and the order of a
 message's records matters only within an array (event_rpcgen.py).
*/
module RpcRoundTrip {
  import opened Options
  import opened Bytes
  import opened Tagging
  import opened Rpc

  /** A record as its entry's number and its value. */
  type Rec = (nat, Value)

  function SlotValues(slot: Slot): seq<Value>
  {
    match slot
    case Unset => []
    case One(v) => [v]
    case Many(vs) => vs
  }

  function Tagged(k: nat, vs: seq<Value>): (r: seq<Rec>)
    ensures |r| == |vs|
  {
    seq(|vs|, j requires 0 <= j < |vs| => (k, vs[j]))
  }

  /** The records of a message from entry `k` on, in the order in which they are marshalled. */
  function RecordsFrom(m: Msg, k: nat): seq<Rec>
    decreases if k < |m.slots| then |m.slots| - k else 0
  {
    if k >= |m.slots| then [] else Tagged(k, SlotValues(m.slots[k])) + RecordsFrom(m, k + 1)
  }

  /** The bytes of a list of records of struct `s`. */
  function Concat(schema: Schema, s: nat, rs: seq<Rec>): seq<byte>
  {
    if rs == [] then [] else
      (if rs[0].0 < |FieldsOf(schema, s)| then ValueRecord(schema, FieldsOf(schema, s)[rs[0].0], rs[0].1) else [])
      + Concat(schema, s, rs[1..])
  }

  lemma {:induction false} ConcatAppend(schema: Schema, s: nat, a: seq<Rec>, b: seq<Rec>)
    ensures Concat(schema, s, a + b) == Concat(schema, s, a) + Concat(schema, s, b)
  {
    hide ValueRecord;
    if a == [] {
      assert a + b == b;
    } else {
      assert (a + b)[1..] == a[1..] + b;
      ConcatAppend(schema, s, a[1..], b);
    }
  }

  lemma {:induction false} ArrayConcat(schema: Schema, s: nat, k: nat, slot: Slot, j: nat)
    requires slot.Many? && k < |FieldsOf(schema, s)| && j <= |slot.vs|
    ensures Concat(schema, s, Tagged(k, slot.vs)[j..]) == ArrayRecords(schema, FieldsOf(schema, s)[k], slot, j)
    decreases |slot.vs| - j
  {
    hide ValueRecord;
    if j < |slot.vs| {
      ArrayConcat(schema, s, k, slot, j + 1);
      assert Tagged(k, slot.vs)[j..][1..] == Tagged(k, slot.vs)[j + 1..];
    }
  }

  /** The records of one slot. */
  function SlotRecords(schema: Schema, f: Field, slot: Slot): (b: seq<byte>)
  {
    match slot
    case Unset => []
    case One(v) => ValueRecord(schema, f, v)
    case Many(_) => ArrayRecords(schema, f, slot, 0)
  }

  lemma {:induction false} SlotConcat(schema: Schema, s: nat, k: nat, slot: Slot)
    requires k < |FieldsOf(schema, s)|
    ensures Concat(schema, s, Tagged(k, SlotValues(slot))) == SlotRecords(schema, FieldsOf(schema, s)[k], slot)
  {
    hide ValueRecord, ArrayRecords, FieldsOf;
    match slot {
    case Unset =>
    case One(v) =>
      assert Tagged(k, [v])[1..] == [];
    case Many(vs) =>
      ArrayConcat(schema, s, k, slot, 0);
      assert Tagged(k, vs)[0..] == Tagged(k, vs);
    }
  }

  lemma {:induction false} MarshalStep(schema: Schema, s: nat, m: Msg, k: nat)
    requires k < |m.slots| == |FieldsOf(schema, s)|
    ensures MarshalFrom(schema, s, m, k) == SlotRecords(schema, FieldsOf(schema, s)[k], m.slots[k]) + MarshalFrom(schema, s, m, k + 1)
  {
    hide ValueRecord, ArrayRecords, FieldsOf;
  }

  /** Marshalling writes the records of the message. */
  lemma {:induction false} MarshalIsConcat(schema: Schema, s: nat, m: Msg, k: nat)
    requires k <= |m.slots| == |FieldsOf(schema, s)|
    ensures MarshalFrom(schema, s, m, k) == Concat(schema, s, RecordsFrom(m, k))
    decreases |m.slots| - k
  {
    hide ValueRecord, ArrayRecords, FieldsOf, SlotRecords, SlotValues;
    if k < |m.slots| {
      hide MarshalFrom, Concat;
      MarshalIsConcat(schema, s, m, k + 1);
      MarshalStep(schema, s, m, k);
      SlotConcat(schema, s, k, m.slots[k]);
      ConcatAppend(schema, s, Tagged(k, SlotValues(m.slots[k])), RecordsFrom(m, k + 1));
    }
  }

  // ---------- absorbing records ----------

  function AbsorbAll(f: Field, slot: Slot, vs: seq<Value>): (r: Maybe<Slot>)
    decreases |vs|
  {
    if vs == [] then Some(slot) else
      var next := Absorb(f, slot, vs[0]);
      if next.None? then None else AbsorbAll(f, next.value, vs[1..])
  }

  /** What the records make of the slots. */
  function Fold(fields: seq<Field>, slots: seq<Slot>, rs: seq<Rec>): (r: Maybe<seq<Slot>>)
    requires |slots| == |fields|
    ensures r.Some? ==> |r.value| == |fields|
    decreases |rs|
  {
    if rs == [] then Some(slots)
    else if rs[0].0 >= |fields| then None
    else
      var i := rs[0].0;
      var slot := Absorb(fields[i], slots[i], rs[0].1);
      if slot.None? then None else Fold(fields, slots[i := slot.value], rs[1..])
  }

  /** The values of entry `i`, in order. */
  function Only(rs: seq<Rec>, i: nat): seq<Value>
  {
    if rs == [] then [] else (if rs[0].0 == i then [rs[0].1] else []) + Only(rs[1..], i)
  }

  /** Each slot depends only on the records of its own entry. */
  lemma {:induction false} FoldSlots(fields: seq<Field>, slots: seq<Slot>, rs: seq<Rec>, want: seq<Slot>)
    requires |slots| == |fields| == |want| && forall k | 0 <= k < |rs| :: rs[k].0 < |fields|
    requires forall i | 0 <= i < |fields| :: AbsorbAll(fields[i], slots[i], Only(rs, i)) == Some(want[i])
    ensures Fold(fields, slots, rs) == Some(want)
    decreases |rs|
  {
    hide Absorb;
    if rs == [] {
      assert forall i | 0 <= i < |fields| :: AbsorbAll(fields[i], slots[i], Only(rs, i)) == Some(slots[i]);
      assert slots == want;
    } else {
      var i, v := rs[0].0, rs[0].1;
      assert Only(rs, i)[1..] == Only(rs[1..], i);
      assert AbsorbAll(fields[i], slots[i], Only(rs, i)) == Some(want[i]);
      var slot := Absorb(fields[i], slots[i], v).value;
      forall k | 0 <= k < |fields|
        ensures AbsorbAll(fields[k], slots[i := slot][k], Only(rs[1..], k)) == Some(want[k])
      {
        assert AbsorbAll(fields[k], slots[k], Only(rs, k)) == Some(want[k]);
        if k != i {
          assert Only(rs, k) == [] + Only(rs[1..], k) == Only(rs[1..], k);
        }
      }
      FoldSlots(fields, slots[i := slot], rs[1..], want);
    }
  }

  lemma {:induction false} OnlyStep(r: Rec, rs: seq<Rec>, i: nat)
    ensures Only([r] + rs, i) == (if r.0 == i then [r.1] else []) + Only(rs, i)
  {
    assert ([r] + rs)[1..] == rs;
  }

  lemma {:induction false} OnlyAppend(a: seq<Rec>, b: seq<Rec>, i: nat)
    ensures Only(a + b, i) == Only(a, i) + Only(b, i)
  {
    if a == [] {
      assert a + b == b;
    } else {
      hide Only;
      assert a == [a[0]] + a[1..];
      assert a + b == [a[0]] + (a[1..] + b);
      OnlyStep(a[0], a[1..], i);
      OnlyStep(a[0], a[1..] + b, i);
      OnlyAppend(a[1..], b, i);
    }
  }

  lemma {:induction false} OnlyTagged(k: nat, vs: seq<Value>, i: nat)
    ensures Only(Tagged(k, vs), i) == if i == k then vs else []
  {
    if vs != [] {
      assert Tagged(k, vs)[1..] == Tagged(k, vs[1..]);
      OnlyTagged(k, vs[1..], i);
      assert [vs[0]] + vs[1..] == vs;
    }
  }

  /** The records of an entry are the values in its slot. */
  lemma {:induction false} OnlyRecords(m: Msg, k: nat, i: nat)
    ensures Only(RecordsFrom(m, k), i) == if k <= i < |m.slots| then SlotValues(m.slots[i]) else []
    decreases if k < |m.slots| then |m.slots| - k else 0
  {
    if k < |m.slots| {
      OnlyRecords(m, k + 1, i);
      OnlyAppend(Tagged(k, SlotValues(m.slots[k])), RecordsFrom(m, k + 1), i);
      OnlyTagged(k, SlotValues(m.slots[k]), i);
    }
  }

  lemma {:induction false} ManyAbsorbed(f: Field, done: seq<Value>, vs: seq<Value>)
    requires f.repeated
    ensures AbsorbAll(f, Many(done), vs) == Some(Many(done + vs))
    decreases |vs|
  {
    if vs == [] {
      assert done + [] == done;
    } else {
      ManyAbsorbed(f, done + [vs[0]], vs[1..]);
      assert (done + [vs[0]]) + vs[1..] == done + vs;
    }
  }

  /** A slot's values fill an empty slot. */
  lemma {:induction false} SlotAbsorbed(f: Field, slot: Slot)
    requires match slot case Unset => true case One(_) => !f.repeated case Many(vs) => f.repeated && vs != []
    ensures AbsorbAll(f, Unset, SlotValues(slot)) == Some(slot)
  {
    match slot {
    case Unset =>
    case One(v) =>
      assert [v][1..] == [];
    case Many(vs) =>
      ManyAbsorbed(f, [] + [vs[0]], vs[1..]);
      assert [] + [vs[0]] + vs[1..] == vs;
    }
  }

  // ---------- reading one record ----------

  /** Whatever follows it, the record of the value is read back by the code of entry `k`. */
  ghost predicate Readable(schema: Schema, s: nat, k: nat, v: Value)
  {
    k < |FieldsOf(schema, s)| && forall rest: seq<byte> :: ReadBack(schema, FieldsOf(schema, s)[k], v, rest)
  }

  ghost predicate ReadBack(schema: Schema, f: Field, v: Value, rest: seq<byte>)
  {
    var b := ValueRecord(schema, f, v) + rest;
    b != [] && PeekTag(b).Some? && PeekTag(b).value.0 == f.tag && TakeValue(schema, f.kind, b) == Some((v, rest))
  }

  lemma {:induction false} PeekedTag(tag: nat, payload: seq<byte>, rest: seq<byte>)
    requires tag < TWO32 && |payload| < TWO32
    ensures var b := Record(tag, payload) + rest; b != [] && PeekTag(b).Some? && PeekTag(b).value.0 == tag
  {
    hide EncodeInt, EncodeTag, DecodeTag;
    var tail := EncodeInt(|payload|) + payload + rest;
    assert Record(tag, payload) + rest == EncodeTag(tag) + tail;
    TagRoundTrip(tag, tail);
  }

  lemma {:induction false} NumberTaken(tag: nat, n: nat, rest: seq<byte>, maxNibbles: nat)
    requires tag < TWO32 && n < TWO64 && 1 <= maxNibbles <= 16 && n < Pow16(maxNibbles) && |EncodeInt(n)| < TWO32
    ensures TakeNumber(Record(tag, EncodeInt(n)) + rest, maxNibbles) == Some((Num(n), rest))
  {
    hide EncodeInt, DecodeInt, Header, Record;
    var p := EncodeInt(n);
    var r := Record(tag, p);
    HeaderRoundTrip(tag, p, rest);
    RecordEnds(tag, p);
    var at := |r| - |p|;
    assert (r + rest)[at..] == p + rest;
    IntRoundTrip(n, rest, maxNibbles);
    assert (r + rest)[at + |p|..] == rest;
  }

  lemma {:induction false} RecordEnds(tag: nat, payload: seq<byte>)
    requires |payload| < TWO32
    ensures |payload| <= |Record(tag, payload)| && Record(tag, payload)[|Record(tag, payload)| - |payload|..] == payload
  {
    hide EncodeInt, EncodeTag;
  }

  lemma {:induction false} CStrWhole(b: seq<byte>)
    requires NoNul(b)
    ensures CStr(b) == b
  {
  }

  /** The record of a sendable value can be read back. */
  lemma {:induction false} ValueReadable(schema: Schema, s: nat, k: nat, v: Value)
    requires SchemaOk(schema) && s < |schema| && k < |schema[s]| && ValueOk(schema, schema[s][k].kind, v)
    ensures Readable(schema, s, k, v)
    decreases v, 1
  {
    var f := schema[s][k];
    forall rest: seq<byte>
      ensures ReadBack(schema, f, v, rest)
    {
      ValueReadBack(schema, f, v, rest);
    }
  }

  lemma {:induction false} ValueReadBack(schema: Schema, f: Field, v: Value, rest: seq<byte>)
    requires SchemaOk(schema) && f.tag < TWO32 && ValueOk(schema, f.kind, v)
    ensures ReadBack(schema, f, v, rest)
    decreases v, 0
  {
    hide Record, PeekTag, Unmarshal, EncodeInt, TakeNumber, MsgOk, MarshalFrom, UnmarshalMsg, CStr, NoNul, Pow16;
    var p := Payload(schema, f.kind, v);
    PeekedTag(f.tag, p, rest);
    if |p| < TWO31 {
      RecordRoundTrip(f.tag, p, rest);
    }
    match f.kind {
    case Int32 =>
      Widths();
      NumberTaken(f.tag, v.n, rest, 8);
    case Int64 =>
      Widths();
      NumberTaken(f.tag, v.n, rest, 16);
    case Text =>
      CStrWhole(v.b);
    case Fixed(n) =>
    case VarBytes =>
    case Struct(number) =>
      StructKnown(schema, number, v.msg);
      RoundTrip(schema, number, v.msg);
    }
  }

  lemma {:induction false} StructKnown(schema: Schema, s: nat, m: Msg)
    requires MsgOk(schema, s, m)
    ensures s < |schema|
  {
  }

  lemma {:induction false} ElementOk(schema: Schema, kind: Kind, slot: Slot, j: nat, i: nat)
    requires slot.Many? && j <= i < |slot.vs| && ElementsOk(schema, kind, slot, j)
    ensures ValueOk(schema, kind, slot.vs[i])
    decreases i - j
  {
    hide ValueOk;
    if j < i {
      ElementOk(schema, kind, slot, j + 1, i);
    }
  }

  /** What SlotsOk asks of one slot. */
  predicate SlotFits(schema: Schema, f: Field, slot: Slot)
  {
    match slot
    case Unset => f.optional || f.repeated
    case One(v) => !f.repeated && ValueOk(schema, f.kind, v)
    case Many(vs) => f.repeated && vs != [] && ElementsOk(schema, f.kind, slot, 0)
  }

  lemma {:induction false} SlotOkAt(schema: Schema, s: nat, m: Msg, k: nat, i: nat)
    requires s < |schema| && |m.slots| == |schema[s]| && k <= i < |m.slots| && SlotsOk(schema, s, m, k)
    ensures SlotFits(schema, schema[s][i], m.slots[i])
    decreases i - k
  {
    hide ValueOk, ElementsOk;
    if k < i {
      SlotOkAt(schema, s, m, k + 1, i);
    }
  }

  lemma {:induction false} SlotValueOk(schema: Schema, f: Field, slot: Slot, v: Value)
    requires SlotFits(schema, f, slot) && v in SlotValues(slot)
    ensures ValueOk(schema, f.kind, v)
  {
    hide ValueOk, ElementsOk;
    if slot.Many? {
      var i :| 0 <= i < |slot.vs| && slot.vs[i] == v;
      ElementOk(schema, f.kind, slot, 0, i);
    }
  }

  lemma {:induction false} MsgReadable(schema: Schema, s: nat, m: Msg, k: nat, v: Value)
    requires SchemaOk(schema) && MsgOk(schema, s, m) && k < |m.slots| && v in SlotValues(m.slots[k])
    ensures Readable(schema, s, k, v)
    decreases m, 1
  {
    hide ValueOk, ElementsOk, SlotsOk, Readable, SchemaOk, SlotFits;
    SlotOkAt(schema, s, m, 0, k);
    SlotValueOk(schema, schema[s][k], m.slots[k], v);
    ValueReadable(schema, s, k, v);
  }

  // ---------- reading all records ----------

  lemma {:induction false} FieldFound(fields: seq<Field>, k: nat)
    requires k < |fields| && DistinctTags(fields)
    ensures FieldWithTag(fields, fields[k].tag) == Some(k)
  {
    hide FieldWithTag;
    var r := FieldWithTag(fields, fields[k].tag);
    assert r.Some? && fields[r.value].tag == fields[k].tag;
  }

  /** The loop reads the records one by one into the slots. */
  lemma {:induction false} LoopOfRecords(schema: Schema, s: nat, slots: seq<Slot>, rs: seq<Rec>)
    requires SchemaOk(schema) && s < |schema| && |slots| == |schema[s]|
    requires forall k | 0 <= k < |rs| :: Readable(schema, s, rs[k].0, rs[k].1)
    requires Fold(schema[s], slots, rs).Some?
    ensures UnmarshalLoop(schema, s, slots, Concat(schema, s, rs)) == Some(Msg(Fold(schema[s], slots, rs).value))
    decreases |rs|
  {
    hide SchemaOk, FieldWithTag, TakeValue, PeekTag, ValueRecord;
    if rs != [] {
      var i, v := rs[0].0, rs[0].1;
      var rest := Concat(schema, s, rs[1..]);
      assert Readable(schema, s, i, v);
      assert ReadBack(schema, schema[s][i], v, rest);
      TagsDistinct(schema, s);
      FieldFound(schema[s], i);
      var slot := Absorb(schema[s][i], slots[i], v).value;
      LoopOfRecords(schema, s, slots[i := slot], rs[1..]);
    }
  }

  lemma {:induction false} TagsDistinct(schema: Schema, s: nat)
    requires SchemaOk(schema) && s < |schema|
    ensures DistinctTags(schema[s])
  {
  }

  /** A sendable message is complete. */
  lemma {:induction false} CompleteMsg(schema: Schema, s: nat, m: Msg)
    requires MsgOk(schema, s, m)
    ensures Complete(schema, s, m)
    decreases m, 1
  {
    CompleteSlots(schema, s, m, 0);
  }

  lemma {:induction false} CompleteSlots(schema: Schema, s: nat, m: Msg, k: nat)
    requires s < |schema| && |m.slots| == |schema[s]| && SlotsOk(schema, s, m, k)
    ensures CompleteFrom(schema, s, m, k)
    decreases m, 0, if k < |m.slots| then |m.slots| - k else 0
  {
    hide MsgOk, Complete, ElementsOk, Payload;
    if k < |m.slots| {
      var f, slot := schema[s][k], m.slots[k];
      match slot {
      case Unset =>
      case One(v) =>
        if f.kind.Struct? {
          CompleteMsg(schema, f.kind.number, v.msg);
        }
      case Many(vs) =>
        if f.kind.Struct? {
          CompleteArray(schema, f.kind.number, slot, 0);
        }
      }
      CompleteSlots(schema, s, m, k + 1);
    }
  }

  lemma {:induction false} CompleteArray(schema: Schema, number: nat, slot: Slot, j: nat)
    requires slot.Many? && ElementsOk(schema, Struct(number), slot, j)
    ensures CompleteElements(schema, number, slot, j)
    decreases slot, if j < |slot.vs| then |slot.vs| - j else 0
  {
    hide MsgOk, Complete, Payload;
    if j < |slot.vs| {
      CompleteMsg(schema, number, slot.vs[j].msg);
      CompleteArray(schema, number, slot, j + 1);
    }
  }

  lemma {:induction false} InOnly(rs: seq<Rec>, k: nat)
    requires k < |rs|
    ensures rs[k].1 in Only(rs, rs[k].0)
  {
    if k > 0 {
      InOnly(rs[1..], k - 1);
    }
  }

  /** The records of message `m`, in any order that keeps the order within each entry. */
  ghost predicate Shuffled(m: Msg, rs: seq<Rec>)
  {
    && (forall k | 0 <= k < |rs| :: rs[k].0 < |m.slots|)
    && forall i | 0 <= i < |m.slots| :: Only(rs, i) == SlotValues(m.slots[i])
  }

  /** Reordering the records of a message, each array kept in order, decodes to the same message. */
  lemma {:induction false} Reorder(schema: Schema, s: nat, m: Msg, rs: seq<Rec>)
    requires SchemaOk(schema) && MsgOk(schema, s, m) && Shuffled(m, rs)
    ensures UnmarshalMsg(schema, s, Concat(schema, s, rs)) == Some(m)
    decreases m, 2
  {
    hide SchemaOk, Readable, SlotsOk, SlotFits, Concat, UnmarshalLoop, Complete, Only, SlotValues, Fold, AbsorbAll;
    var fields, blank := schema[s], Blank(|schema[s]|);
    forall k | 0 <= k < |rs|
      ensures Readable(schema, s, rs[k].0, rs[k].1)
    {
      InOnly(rs, k);
      MsgReadable(schema, s, m, rs[k].0, rs[k].1);
    }
    forall i | 0 <= i < |fields|
      ensures AbsorbAll(fields[i], blank[i], Only(rs, i)) == Some(m.slots[i])
    {
      SlotOkAt(schema, s, m, 0, i);
      FittingAbsorbed(schema, fields[i], m.slots[i]);
    }
    FoldSlots(fields, blank, rs, m.slots);
    LoopOfRecords(schema, s, blank, rs);
    CompleteMsg(schema, s, m);
  }

  lemma {:induction false} FittingAbsorbed(schema: Schema, f: Field, slot: Slot)
    requires SlotFits(schema, f, slot)
    ensures AbsorbAll(f, Unset, SlotValues(slot)) == Some(slot)
  {
    hide ValueOk, ElementsOk, AbsorbAll, SlotValues;
    SlotAbsorbed(f, slot);
  }

  /** Marshal, then unmarshal: the same message. */
  lemma {:induction false} RoundTrip(schema: Schema, s: nat, m: Msg)
    requires SchemaOk(schema) && MsgOk(schema, s, m)
    ensures UnmarshalMsg(schema, s, MarshalFrom(schema, s, m, 0)) == Some(m)
    decreases m, 3
  {
    hide SchemaOk, SlotsOk, MarshalFrom, Concat, UnmarshalMsg, Only, SlotValues, RecordsFrom;
    var rs := RecordsFrom(m, 0);
    MarshalIsConcat(schema, s, m, 0);
    forall i: nat
      ensures Only(rs, i) == if i < |m.slots| then SlotValues(m.slots[i]) else []
    {
      OnlyRecords(m, 0, i);
    }
    forall k | 0 <= k < |rs|
      ensures rs[k].0 < |m.slots|
    {
      InOnly(rs, k);
    }
    Reorder(schema, s, m, rs);
  }
}
