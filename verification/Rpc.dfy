/**
 The code that event_rpcgen.py generates for a struct, read as an interpreter
 of the struct's description: marshal, unmarshal, complete.
*/
module Rpc {
  import opened Options
  import opened Bytes
  import opened Tagging

  // ---------- schemas and messages ----------

  /** The kinds of entries; a struct entry names its struct by number, so structs may be recursive. */
  datatype Kind = Int32 | Int64 | Text | Fixed(length: nat) | VarBytes | Struct(number: nat)

  datatype Field = Field(tag: nat, kind: Kind, optional: bool, repeated: bool)

  /** The structs of an .rpc file. */
  type Schema = seq<seq<Field>>

  datatype Value = Num(n: nat) | Blob(b: seq<byte>) | Sub(msg: Msg)

  datatype Slot = Unset | One(v: Value) | Many(vs: seq<Value>)

  /** A message: one slot for each entry of its struct. */
  datatype Msg = Msg(slots: seq<Slot>)

  /** What Struct.AddEntry and Entry.Verify accept. */
  predicate FieldOk(schema: Schema, f: Field)
  {
    && f.tag < TWO32 && !(f.optional && f.repeated)
    && (f.kind.Fixed? ==> f.kind.length < TWO31)
    && (f.repeated ==> !f.kind.Fixed? && !f.kind.VarBytes?)
    && (f.kind.Struct? ==> f.kind.number < |schema|)
  }

  predicate DistinctTags(fields: seq<Field>)
  {
    forall i, j | 0 <= i < j < |fields| :: fields[i].tag != fields[j].tag
  }

  predicate SchemaOk(schema: Schema)
  {
    forall s | 0 <= s < |schema| :: DistinctTags(schema[s]) && forall i | 0 <= i < |schema[s]| :: FieldOk(schema, schema[s][i])
  }

  /** A C string has no zero byte. */
  predicate NoNul(b: seq<byte>)
  {
    forall i | 0 <= i < |b| :: b[i] != 0
  }

  function CStr(b: seq<byte>): (r: seq<byte>)
    ensures NoNul(r) && (NoNul(b) ==> r == b) && r <= b && (|r| < |b| ==> b[|r|] == 0)
  {
    if b == [] || b[0] == 0 then [] else [b[0]] + CStr(b[1..])
  }

  function FieldsOf(schema: Schema, s: nat): seq<Field>
  {
    if s < |schema| then schema[s] else []
  }

  // ---------- marshal ----------

  /** The payload of a value's record. */
  function Payload(schema: Schema, kind: Kind, v: Value): (b: seq<byte>)
    decreases v, 0
  {
    match v
    case Num(n) => if n < TWO64 then EncodeInt(n) else []
    case Blob(b) => b
    case Sub(m) => if kind.Struct? then MarshalFrom(schema, kind.number, m, 0) else []
  }

  /** The record of one value; a payload of 2^32 bytes or more cannot be sent. */
  function ValueRecord(schema: Schema, f: Field, v: Value): (b: seq<byte>)
    decreases v, 1
  {
    var p := Payload(schema, f.kind, v);
    if |p| < TWO32 then Record(f.tag, p) else []
  }

  /** The records of the elements of an array from `j` on. */
  function ArrayRecords(schema: Schema, f: Field, slot: Slot, j: nat): (b: seq<byte>)
    requires slot.Many?
    decreases slot, if j < |slot.vs| then |slot.vs| - j else 0
  {
    if j >= |slot.vs| then [] else ValueRecord(schema, f, slot.vs[j]) + ArrayRecords(schema, f, slot, j + 1)
  }

  /** The generated marshal function, from entry `k` on. */
  function MarshalFrom(schema: Schema, s: nat, m: Msg, k: nat): (b: seq<byte>)
    decreases m, if k < |m.slots| then |m.slots| - k else 0
  {
    if k >= |m.slots| || k >= |FieldsOf(schema, s)| then [] else
      var f := FieldsOf(schema, s)[k];
      (match m.slots[k]
       case Unset => []
       case One(v) => ValueRecord(schema, f, v)
       case Many(_) => ArrayRecords(schema, f, m.slots[k], 0))
      + MarshalFrom(schema, s, m, k + 1)
  }

  /** The generated marshal function. */
  function Marshal(schema: Schema, s: nat, m: Msg): (b: seq<byte>)
  {
    MarshalFrom(schema, s, m, 0)
  }

  // ---------- what can be sent ----------

  /** A value of the kind, whose record can be read back. */
  predicate ValueOk(schema: Schema, kind: Kind, v: Value)
    decreases v, 0
  {
    && |Payload(schema, kind, v)| < TWO31
    && match kind
       case Int32 => v.Num? && v.n < TWO32
       case Int64 => v.Num? && v.n < TWO64
       case Text => v.Blob? && NoNul(v.b)
       case Fixed(n) => v.Blob? && |v.b| == n
       case VarBytes => v.Blob?
       case Struct(s) => v.Sub? && MsgOk(schema, s, v.msg)
  }

  /** A complete message of struct `s`: required entries are set, arrays that are set are not empty. */
  predicate MsgOk(schema: Schema, s: nat, m: Msg)
    decreases m, 1
  {
    s < |schema| && |m.slots| == |schema[s]| && SlotsOk(schema, s, m, 0)
  }

  predicate SlotsOk(schema: Schema, s: nat, m: Msg, k: nat)
    requires s < |schema| && |m.slots| == |schema[s]|
    decreases m, 0, if k < |m.slots| then |m.slots| - k else 0
  {
    k >= |m.slots| ||
      (var f, slot := schema[s][k], m.slots[k];
       (match slot
        case Unset => f.optional || f.repeated
        case One(v) => !f.repeated && ValueOk(schema, f.kind, v)
        case Many(vs) => f.repeated && vs != [] && ElementsOk(schema, f.kind, slot, 0))
       && SlotsOk(schema, s, m, k + 1))
  }

  predicate ElementsOk(schema: Schema, kind: Kind, slot: Slot, j: nat)
    requires slot.Many?
    decreases slot, if j < |slot.vs| then |slot.vs| - j else 0
  {
    j >= |slot.vs| || (ValueOk(schema, kind, slot.vs[j]) && ElementsOk(schema, kind, slot, j + 1))
  }

  // ---------- unmarshal ----------

  /** The `case` of the generated switch that a tag leads to. */
  function FieldWithTag(fields: seq<Field>, tag: nat): (r: Maybe<nat>)
    ensures r.Some? ==> r.value < |fields| && fields[r.value].tag == tag
    ensures r.None? ==> forall i | 0 <= i < |fields| :: fields[i].tag != tag
  {
    if fields == [] then None
    else if fields[0].tag == tag then Some(0)
    else
      var r := FieldWithTag(fields[1..], tag);
      if r.None? then None else Some(r.value + 1)
  }

  /** evtag_unmarshal_int, evtag_unmarshal_int64: the number and what follows the record. */
  function TakeNumber(s: seq<byte>, maxNibbles: nat): (r: Maybe<(Value, seq<byte>)>)
    ensures r.Some? ==> |r.value.1| < |s|
  {
    var h := Header(s);
    if h.None? || |s| - h.value.1 < h.value.2 then None else
      var d := DecodeInt(s[h.value.1..], maxNibbles);
      if d.None? || d.value.1 > h.value.2 then None else
        assert h.value.1 > 0;
        Some((Num(d.value.0), s[h.value.1 + h.value.2..]))
  }

  /** The unmarshal code of one kind of entry. */
  function TakeValue(schema: Schema, kind: Kind, s: seq<byte>): (r: Maybe<(Value, seq<byte>)>)
    ensures r.Some? ==> |r.value.1| < |s|
    decreases |s|, 1
  {
    match kind
    case Int32 => TakeNumber(s, 8)
    case Int64 => TakeNumber(s, 16)
    case Text =>
      var u := Unmarshal(s);
      if u.None? then None else Some((Blob(CStr(u.value.1)), u.value.2))
    case Fixed(n) =>
      var u := Unmarshal(s);
      if u.None? || |u.value.1| != n then None else Some((Blob(u.value.1), u.value.2))
    case VarBytes =>
      var u := Unmarshal(s);
      if u.None? then None else Some((Blob(u.value.1), u.value.2))
    case Struct(number) =>
      var u := Unmarshal(s);
      if u.None? || number >= |schema| then None else
        var m := UnmarshalMsg(schema, number, u.value.1);
        if m.None? then None else Some((Sub(m.value), u.value.2))
  }

  /** A value goes into its slot: an array grows, anything else must not be set yet. */
  function Absorb(f: Field, slot: Slot, v: Value): (r: Maybe<Slot>)
  {
    if f.repeated then Some(Many((if slot.Many? then slot.vs else []) + [v]))
    else if slot.Unset? then Some(One(v)) else None
  }

  /** The loop of the generated unmarshal function. */
  function UnmarshalLoop(schema: Schema, number: nat, slots: seq<Slot>, s: seq<byte>): (r: Maybe<Msg>)
    requires number < |schema| && |slots| == |schema[number]|
    ensures r.Some? ==> |r.value.slots| == |slots|
    decreases |s|, 2
  {
    if s == [] then Some(Msg(slots)) else
      var t := PeekTag(s); // evtag_peek
      if t.None? then None else
        var i := FieldWithTag(schema[number], t.value.0);
        if i.None? then None else
          var f := schema[number][i.value];
          if !f.repeated && !slots[i.value].Unset? then None else
            var v := TakeValue(schema, f.kind, s);
            if v.None? then None else
              var slot := Absorb(f, slots[i.value], v.value.0);
              if slot.None? then None
              else UnmarshalLoop(schema, number, slots[i.value := slot.value], v.value.1)
  }

  /** The generated complete function: required entries are set, here and in nested messages. */
  predicate Complete(schema: Schema, s: nat, m: Msg)
    decreases m, 1
  {
    s < |schema| && |m.slots| == |schema[s]| && CompleteFrom(schema, s, m, 0)
  }

  predicate CompleteFrom(schema: Schema, s: nat, m: Msg, k: nat)
    requires s < |schema| && |m.slots| == |schema[s]|
    decreases m, 0, if k < |m.slots| then |m.slots| - k else 0
  {
    k >= |m.slots| ||
      (var f, slot := schema[s][k], m.slots[k];
       (match slot
        case Unset => f.optional || f.repeated
        case One(v) => f.kind.Struct? && v.Sub? ==> Complete(schema, f.kind.number, v.msg)
        case Many(vs) => f.kind.Struct? ==> CompleteElements(schema, f.kind.number, slot, 0))
       && CompleteFrom(schema, s, m, k + 1))
  }

  predicate CompleteElements(schema: Schema, number: nat, slot: Slot, j: nat)
    requires slot.Many?
    decreases slot, if j < |slot.vs| then |slot.vs| - j else 0
  {
    j >= |slot.vs| ||
      ((slot.vs[j].Sub? ==> Complete(schema, number, slot.vs[j].msg)) && CompleteElements(schema, number, slot, j + 1))
  }

  /** The slots of a new message. */
  function Blank(n: nat): (slots: seq<Slot>)
    ensures |slots| == n && forall i | 0 <= i < n :: slots[i] == Unset
  {
    seq(n, _ => Unset)
  }

  /** The generated unmarshal function, into a new message. */
  function UnmarshalMsg(schema: Schema, number: nat, s: seq<byte>): (r: Maybe<Msg>)
    requires number < |schema|
    decreases |s|, 3
  {
    var m := UnmarshalLoop(schema, number, Blank(|schema[number]|), s);
    if m.None? || !Complete(schema, number, m.value) then None else m
  }
}
