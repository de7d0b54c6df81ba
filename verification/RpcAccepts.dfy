/**
 Which messages the generated unmarshal code accepts: required entries, in nested structs too, and
 records too many.
*/
module RpcAccepts {
  import opened Options
  import opened Bytes
  import opened Tagging
  import opened Rpc
  import opened RpcRoundTrip

  // ---------- required entries ----------

  /** The message inside `m`, a message of struct `s`, at the end of a path of entries and elements. */
  function Inside(schema: Schema, s: nat, m: Msg, path: seq<(nat, nat)>): (r: Maybe<(nat, Msg)>)
    decreases |path|
  {
    if path == [] then Some((s, m))
    else
      var (k, j) := path[0];
      if k >= |m.slots| || k >= |FieldsOf(schema, s)| || j >= |SlotValues(m.slots[k])| then None
      else
        var f, v := FieldsOf(schema, s)[k], SlotValues(m.slots[k])[j];
        if f.kind.Struct? && v.Sub? then Inside(schema, f.kind.number, v.msg, path[1..]) else None
  }

  /** The message has a slot for each entry of its struct, and those that must be set are. */
  predicate RequiredSet(schema: Schema, s: nat, m: Msg)
  {
    && s < |schema| && |m.slots| == |schema[s]|
    && forall k | 0 <= k < |m.slots| && !schema[s][k].optional && !schema[s][k].repeated :: m.slots[k] != Unset
  }

  lemma {:induction false} SlotsComplete(schema: Schema, s: nat, m: Msg, k: nat, i: nat)
    requires s < |schema| && |m.slots| == |schema[s]| && k <= i < |m.slots| && CompleteFrom(schema, s, m, k)
    ensures m.slots[i] == Unset ==> schema[s][i].optional || schema[s][i].repeated
    ensures schema[s][i].kind.Struct? ==>
      forall v | v in SlotValues(m.slots[i]) && v.Sub? :: Complete(schema, schema[s][i].kind.number, v.msg)
    decreases i - k
  {
    hide Complete;
    if k < i {
      SlotsComplete(schema, s, m, k + 1, i);
    } else if schema[s][i].kind.Struct? && m.slots[i].Many? {
      forall j | 0 <= j < |m.slots[i].vs| && m.slots[i].vs[j].Sub?
        ensures Complete(schema, schema[s][i].kind.number, m.slots[i].vs[j].msg)
      {
        ElementsComplete(schema, schema[s][i].kind.number, m.slots[i], 0, j);
      }
    }
  }

  lemma {:induction false} ElementsComplete(schema: Schema, number: nat, slot: Slot, j: nat, i: nat)
    requires slot.Many? && j <= i < |slot.vs| && slot.vs[i].Sub? && CompleteElements(schema, number, slot, j)
    ensures Complete(schema, number, slot.vs[i].msg)
    decreases i - j
  {
    hide Complete;
    if j < i {
      ElementsComplete(schema, number, slot, j + 1, i);
    }
  }

  /** The generated complete function: in the message, and in every message inside it, all required entries are set. */
  lemma {:induction false} CompleteInside(schema: Schema, s: nat, m: Msg, path: seq<(nat, nat)>)
    requires Complete(schema, s, m) && Inside(schema, s, m, path).Some?
    ensures var (t, sub) := Inside(schema, s, m, path).value; RequiredSet(schema, t, sub)
    decreases |path|
  {
    hide CompleteFrom;
    forall i | 0 <= i < |m.slots|
      ensures m.slots[i] == Unset ==> schema[s][i].optional || schema[s][i].repeated
    {
      SlotsComplete(schema, s, m, 0, i);
    }
    if path != [] {
      var (k, j) := path[0];
      SlotsComplete(schema, s, m, 0, k);
      CompleteInside(schema, schema[s][k].kind.number, SlotValues(m.slots[k])[j].msg, path[1..]);
    }
  }

  /** Whatever is unmarshalled has all its required entries, however deep. */
  lemma {:induction false} NothingMissing(schema: Schema, s: nat, bytes: seq<byte>, path: seq<(nat, nat)>)
    requires s < |schema| && UnmarshalMsg(schema, s, bytes).Some?
    requires Inside(schema, s, UnmarshalMsg(schema, s, bytes).value, path).Some?
    ensures var (t, sub) := Inside(schema, s, UnmarshalMsg(schema, s, bytes).value, path).value; RequiredSet(schema, t, sub)
  {
    hide Complete, UnmarshalLoop;
    CompleteInside(schema, s, UnmarshalMsg(schema, s, bytes).value, path);
  }

  // ---------- how many records ----------

  /** One record of each required entry, at most one of each optional one, any number for an array. */
  predicate RightCounts(fields: seq<Field>, rs: seq<Rec>)
  {
    forall i | 0 <= i < |fields| ::
      var n := |Only(rs, i)|; fields[i].repeated || (if fields[i].optional then n <= 1 else n == 1)
  }

  /** Values so far, and whether an entry that is no array has at most one. */
  predicate SlotSound(f: Field, slot: Slot)
  {
    match slot
    case Unset => true
    case One(_) => !f.repeated
    case Many(vs) => f.repeated && vs != []
  }

  /** A slot takes another value unless it is set and no array. */
  lemma {:induction false} AbsorbOne(f: Field, slot: Slot, v: Value)
    requires SlotSound(f, slot)
    ensures Absorb(f, slot, v).None? <==> !f.repeated && slot != Unset
    ensures Absorb(f, slot, v).Some? ==>
      SlotSound(f, Absorb(f, slot, v).value) && SlotValues(Absorb(f, slot, v).value) == SlotValues(slot) + [v]
  {
  }

  /** The slots take the records unless an entry that is no array gets a second one. */
  lemma {:induction false} FoldCounts(fields: seq<Field>, slots: seq<Slot>, rs: seq<Rec>)
    requires |slots| == |fields| && forall k | 0 <= k < |rs| :: rs[k].0 < |fields|
    requires forall i | 0 <= i < |fields| :: SlotSound(fields[i], slots[i])
    ensures Fold(fields, slots, rs).Some? <==>
      forall i | 0 <= i < |fields| && !fields[i].repeated :: |SlotValues(slots[i])| + |Only(rs, i)| <= 1
    ensures Fold(fields, slots, rs).Some? ==>
      forall i | 0 <= i < |fields| ::
        SlotSound(fields[i], Fold(fields, slots, rs).value[i])
        && SlotValues(Fold(fields, slots, rs).value[i]) == SlotValues(slots[i]) + Only(rs, i)
    decreases |rs|
  {
    hide Absorb, SlotSound, SlotValues;
    if rs == [] {
      forall i | 0 <= i < |fields|
        ensures |SlotValues(slots[i])| <= 1 || fields[i].repeated
        ensures SlotValues(slots[i]) + Only(rs, i) == SlotValues(slots[i])
      {
        FewValues(fields[i], slots[i]);
      }
    } else {
      var i, v, rest := rs[0].0, rs[0].1, rs[1..];
      AbsorbOne(fields[i], slots[i], v);
      FewValues(fields[i], slots[i]);
      forall k | 0 <= k < |fields|
        ensures Only(rs, k) == (if k == i then [v] else []) + Only(rest, k)
      {
      }
      if Absorb(fields[i], slots[i], v).Some? {
        var next := slots[i := Absorb(fields[i], slots[i], v).value];
        FoldCounts(fields, next, rest);
        forall k | 0 <= k < |fields|
          ensures SlotValues(next[k]) + Only(rest, k) == SlotValues(slots[k]) + Only(rs, k)
        {
          assert k != i ==> [] + Only(rest, k) == Only(rest, k);
        }
        assert forall k | 0 <= k < |fields| ::
          |SlotValues(next[k]) + Only(rest, k)| == |SlotValues(slots[k]) + Only(rs, k)|;
      }
    }
  }

  lemma {:induction false} FewValues(f: Field, slot: Slot)
    requires SlotSound(f, slot)
    ensures (|SlotValues(slot)| == 0 <==> slot == Unset) && (|SlotValues(slot)| <= 1 || f.repeated)
  {
  }

  /** Records that the slots do not take are refused. */
  lemma {:induction false} LoopRefuses(schema: Schema, s: nat, slots: seq<Slot>, rs: seq<Rec>)
    requires SchemaOk(schema) && s < |schema| && |slots| == |schema[s]|
    requires forall k | 0 <= k < |rs| :: Readable(schema, s, rs[k].0, rs[k].1)
    requires Fold(schema[s], slots, rs).None? && forall i | 0 <= i < |slots| :: SlotSound(schema[s][i], slots[i])
    ensures UnmarshalLoop(schema, s, slots, Concat(schema, s, rs)) == None
    decreases |rs|
  {
    hide SchemaOk, FieldWithTag, TakeValue, PeekTag, ValueRecord, Absorb, SlotSound;
    var i, v := rs[0].0, rs[0].1;
    var rest := Concat(schema, s, rs[1..]);
    assert Readable(schema, s, i, v);
    assert ReadBack(schema, schema[s][i], v, rest);
    TagsDistinct(schema, s);
    FieldFound(schema[s], i);
    AbsorbOne(schema[s][i], slots[i], v);
    var slot := Absorb(schema[s][i], slots[i], v);
    if slot.Some? {
      LoopRefuses(schema, s, slots[i := slot.value], rs[1..]);
    }
  }

  /** A value that can be read back, and is a message, is complete. */
  lemma {:induction false} ReadableComplete(schema: Schema, s: nat, k: nat, v: Value)
    requires Readable(schema, s, k, v) && v.Sub? && FieldsOf(schema, s)[k].kind.Struct?
    ensures Complete(schema, FieldsOf(schema, s)[k].kind.number, v.msg)
  {
    hide ValueRecord, PeekTag, TakeValue, Complete;
    var f := FieldsOf(schema, s)[k];
    assert ReadBack(schema, f, v, []);
    TakenComplete(schema, f.kind.number, ValueRecord(schema, f, v) + []);
  }

  lemma {:induction false} TakenComplete(schema: Schema, number: nat, b: seq<byte>)
    requires TakeValue(schema, Struct(number), b).Some?
    ensures var v := TakeValue(schema, Struct(number), b).value.0; v.Sub? && Complete(schema, number, v.msg)
  {
    hide Unmarshal, UnmarshalLoop, Complete;
  }

  /** What the complete function asks of one slot. */
  ghost predicate SlotComplete(schema: Schema, f: Field, slot: Slot)
  {
    && (slot == Unset ==> f.optional || f.repeated)
    && (f.kind.Struct? ==> forall v | v in SlotValues(slot) && v.Sub? :: Complete(schema, f.kind.number, v.msg))
  }

  lemma {:induction false} AllComplete(schema: Schema, s: nat, m: Msg, k: nat)
    requires s < |schema| && |m.slots| == |schema[s]|
    requires forall i | k <= i < |m.slots| :: SlotComplete(schema, schema[s][i], m.slots[i])
    ensures CompleteFrom(schema, s, m, k)
    decreases if k < |m.slots| then |m.slots| - k else 0
  {
    hide Complete, CompleteElements;
    if k < |m.slots| {
      assert SlotComplete(schema, schema[s][k], m.slots[k]);
      AllComplete(schema, s, m, k + 1);
      match m.slots[k] {
      case Unset =>
      case One(v) =>
        assert v in SlotValues(m.slots[k]);
      case Many(vs) =>
        if schema[s][k].kind.Struct? {
          AllElements(schema, schema[s][k].kind.number, m.slots[k], 0);
        }
      }
    }
  }

  lemma {:induction false} AllElements(schema: Schema, number: nat, slot: Slot, j: nat)
    requires slot.Many? && forall v | v in slot.vs && v.Sub? :: Complete(schema, number, v.msg)
    ensures CompleteElements(schema, number, slot, j)
    decreases if j < |slot.vs| then |slot.vs| - j else 0
  {
    hide Complete;
    if j < |slot.vs| {
      assert slot.vs[j] in slot.vs;
      AllElements(schema, number, slot, j + 1);
    }
  }

  lemma {:induction false} FromRecord(rs: seq<Rec>, i: nat, v: Value) returns (k: nat)
    requires v in Only(rs, i)
    ensures k < |rs| && rs[k] == (i, v)
  {
    if rs[0] == (i, v) {
      k := 0;
    } else {
      k := FromRecord(rs[1..], i, v);
      k := k + 1;
    }
  }

  /** With the right counts every slot is as it must be. */
  lemma {:induction false} CountsComplete(schema: Schema, s: nat, rs: seq<Rec>, slots: seq<Slot>)
    requires s < |schema| && |slots| == |schema[s]| && forall k | 0 <= k < |rs| :: Readable(schema, s, rs[k].0, rs[k].1)
    requires forall i | 0 <= i < |slots| :: SlotSound(schema[s][i], slots[i]) && SlotValues(slots[i]) == Only(rs, i)
    ensures RightCounts(schema[s], rs) ==> Complete(schema, s, Msg(slots))
  {
    hide Only, SlotSound, SlotValues, Complete, Readable, CompleteFrom;
    if RightCounts(schema[s], rs) {
      forall i | 0 <= i < |slots|
        ensures SlotComplete(schema, schema[s][i], slots[i])
      {
        FewValues(schema[s][i], slots[i]);
        forall v | v in SlotValues(slots[i]) && v.Sub? && schema[s][i].kind.Struct?
          ensures Complete(schema, schema[s][i].kind.number, v.msg)
        {
          var k := FromRecord(rs, i, v);
          assert Readable(schema, s, rs[k].0, rs[k].1);
          ReadableComplete(schema, s, i, v);
        }
      }
      AllComplete(schema, s, Msg(slots), 0);
      WholeComplete(schema, s, Msg(slots));
    }
  }

  lemma {:induction false} WholeComplete(schema: Schema, s: nat, m: Msg)
    requires s < |schema| && |m.slots| == |schema[s]|
    ensures Complete(schema, s, m) <==> CompleteFrom(schema, s, m, 0)
  {
  }

  /**
   Records that can be read, in any order, make a message if and only if there is
   exactly one for each required entry and at most one for each optional one.
  */
  lemma {:induction false} Accepted(schema: Schema, s: nat, rs: seq<Rec>)
    requires SchemaOk(schema) && s < |schema| && forall k | 0 <= k < |rs| :: Readable(schema, s, rs[k].0, rs[k].1)
    ensures UnmarshalMsg(schema, s, Concat(schema, s, rs)).Some? <==> RightCounts(schema[s], rs)
    ensures RightCounts(schema[s], rs) ==>
      forall i | 0 <= i < |schema[s]| :: SlotValues(UnmarshalMsg(schema, s, Concat(schema, s, rs)).value.slots[i]) == Only(rs, i)
  {
    hide SchemaOk, Concat, UnmarshalLoop, Complete, Only, Fold, SlotSound, SlotValues;
    var fields, blank := schema[s], Blank(|schema[s]|);
    forall k | 0 <= k < |rs|
      ensures rs[k].0 < |fields|
    {
      assert Readable(schema, s, rs[k].0, rs[k].1);
    }
    forall i | 0 <= i < |fields|
      ensures SlotSound(fields[i], blank[i]) && SlotValues(blank[i]) == []
    {
      NewSlot(fields[i]);
    }
    FoldCounts(fields, blank, rs);
    var folded := Fold(fields, blank, rs);
    if folded.None? {
      LoopRefuses(schema, s, blank, rs);
    } else {
      LoopOfRecords(schema, s, blank, rs);
      var slots := folded.value;
      forall i | 0 <= i < |fields|
        ensures SlotValues(slots[i]) == Only(rs, i)
      {
        assert [] + Only(rs, i) == Only(rs, i);
      }
      CountsComplete(schema, s, rs, slots);
      if Complete(schema, s, Msg(slots)) {
        CompleteCounts(schema, s, rs, slots);
      }
    }
  }

  lemma {:induction false} NewSlot(f: Field)
    ensures SlotSound(f, Unset) && SlotValues(Unset) == []
  {
  }

  lemma {:induction false} CompleteCounts(schema: Schema, s: nat, rs: seq<Rec>, slots: seq<Slot>)
    requires s < |schema| && |slots| == |schema[s]| && Complete(schema, s, Msg(slots))
    requires forall i | 0 <= i < |slots| :: SlotSound(schema[s][i], slots[i]) && SlotValues(slots[i]) == Only(rs, i)
    ensures RightCounts(schema[s], rs)
  {
    hide Only, SlotSound, SlotValues, CompleteFrom;
    CompleteInside(schema, s, Msg(slots), []);
    forall i | 0 <= i < |slots|
      ensures var n := |Only(rs, i)|; schema[s][i].repeated || (if schema[s][i].optional then n <= 1 else n == 1)
    {
      FewValues(schema[s][i], slots[i]);
    }
  }

  // ---------- single records that are refused ----------

  /** A record whose tag no entry has. */
  lemma {:induction false} UnknownTag(schema: Schema, s: nat, slots: seq<Slot>, tag: nat, payload: seq<byte>,
      rest: seq<byte>)
    requires s < |schema| && |slots| == |schema[s]| && tag < TWO32 && |payload| < TWO32
    requires forall i | 0 <= i < |schema[s]| :: schema[s][i].tag != tag
    ensures UnmarshalLoop(schema, s, slots, Record(tag, payload) + rest) == None
  {
    hide Record, PeekTag, TakeValue, Absorb;
    PeekedTag(tag, payload, rest);
  }

  /** Bytes of a fixed number, and not that many. */
  lemma {:induction false} WrongLength(schema: Schema, n: nat, tag: nat, payload: seq<byte>, rest: seq<byte>)
    requires tag < TWO32 && |payload| < TWO31
    ensures TakeValue(schema, Fixed(n), Record(tag, payload) + rest) ==
              if |payload| == n then Some((Blob(payload), rest)) else None
  {
    hide Record, Unmarshal;
    RecordRoundTrip(tag, payload, rest);
  }

  /** A number must end within its record; bytes to spare are passed over. */
  lemma {:induction false} NumberInRecord(tag: nat, payload: seq<byte>, rest: seq<byte>, maxNibbles: nat)
    requires tag < TWO32 && |payload| < TWO32 && maxNibbles <= 16
    ensures var d := DecodeInt(payload + rest, maxNibbles);
            TakeNumber(Record(tag, payload) + rest, maxNibbles) ==
              if d.Some? && d.value.1 <= |payload| then Some((Num(d.value.0), rest)) else None
  {
    hide Record, Header, DecodeInt;
    HeaderRoundTrip(tag, payload, rest);
    var r := Record(tag, payload);
    RecordEnds(tag, payload);
    var at := |r| - |payload|;
    assert (r + rest)[at..] == payload + rest;
    assert (r + rest)[|r|..] == rest;
  }
}
