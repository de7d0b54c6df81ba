/**
 Whole runs: any sequence of stream operations on two evbuffers behaves like
 the same operations on two flat byte sequences.
*/
module BufferRuns {
  import opened Options
  import opened Bytes
  import opened Chains
  import opened EvBuffers
  import opened BufferMoves
  import opened BufferPullup
  import opened BufferSearch

  /** A buffer as its user sees it. */
  datatype Stream = Stream(bytes: seq<byte>, freezeStart: bool, freezeEnd: bool)

  datatype Op =
    | Add(data: seq<byte>)
    | Prepend(data: seq<byte>)
    | Drain(n: nat)
    | Copyout(n: nat)
    | Remove(n: nat)
    | Pullup(size: int)
    | Readln(style: EolStyle)
    | Freeze(atFront: bool, on: bool)
    | AddBuffer
    | PrependBuffer
    | RemoveBuffer(n: nat)

  /** What a call tells its caller: a result and the bytes it hands out. */
  datatype Seen = Seen(r: int, bytes: seq<byte>)

  function Min(a: nat, b: nat): (m: nat)
    ensures m <= a && m <= b && (m == a || m == b)
  {
    if a <= b then a else b
  }

  // ---------- the flat meaning of the operations ----------

  /** An operation on buffer `t` alone. */
  function ApplyOne(t: Stream, op: Op): (r: (Stream, Seen))
    requires !op.AddBuffer? && !op.PrependBuffer? && !op.RemoveBuffer?
  {
    var s := t.bytes;
    match op
    case Add(d) =>
      if t.freezeEnd || |d| > EV_SIZE_MAX - |s| then (t, Seen(-1, [])) else (t.(bytes := s + d), Seen(0, []))
    case Prepend(d) =>
      if t.freezeStart || |d| > EV_SIZE_MAX - |s| then (t, Seen(-1, [])) else (t.(bytes := d + s), Seen(0, []))
    case Drain(n) =>
      if s != [] && t.freezeStart then (t, Seen(-1, [])) else (t.(bytes := s[Min(n, |s|)..]), Seen(0, []))
    case Copyout(n) =>
      if n > 0 && s != [] && t.freezeStart then (t, Seen(-1, [])) else (t, Seen(Min(n, |s|), s[..Min(n, |s|)]))
    case Remove(n) =>
      if n > 0 && s != [] && t.freezeStart then (t, Seen(-1, []))
      else (t.(bytes := s[Min(n, |s|)..]), Seen(Min(n, |s|), s[..Min(n, |s|)]))
    case Pullup(size) =>
      var n := if size < 0 then |s| else size;
      if n == 0 || n > |s| then (t, Seen(-1, [])) else (t, Seen(0, s[..n]))
    case Readln(style) =>
      var line := NextLine(s, style, 0);
      if t.freezeStart || line.None? then (t, Seen(-1, []))
      else var (n, eol) := line.value; (t.(bytes := s[n + eol..]), Seen(n, s[..n]))
    case Freeze(atFront, on) =>
      (if atFront then t.(freezeStart := on) else t.(freezeEnd := on), Seen(0, []))
  }

  /** Any operation on buffer `t`; the last three take their bytes from buffer `o`. */
  function Apply(t: Stream, o: Stream, op: Op): (r: (Stream, Stream, Seen))
  {
    match op
    case AddBuffer =>
      if o.bytes == [] then (t, o, Seen(0, []))
      else if t.freezeEnd || o.freezeStart then (t, o, Seen(-1, []))
      else (t.(bytes := t.bytes + o.bytes), o.(bytes := []), Seen(0, []))
    case PrependBuffer =>
      if o.bytes == [] then (t, o, Seen(0, []))
      else if t.freezeStart || o.freezeStart then (t, o, Seen(-1, []))
      else (t.(bytes := o.bytes + t.bytes), o.(bytes := []), Seen(0, []))
    case RemoveBuffer(n) =>
      var k := Min(n, |o.bytes|);
      if n == 0 then (t, o, Seen(0, []))
      else if t.freezeEnd || o.freezeStart then (t, o, Seen(-1, []))
      else (t.(bytes := t.bytes + o.bytes[..k]), o.(bytes := o.bytes[k..]), Seen(k, []))
    case _ =>
      var (t', seen) := ApplyOne(t, op);
      (t', o, seen)
  }

  /** The bytes an operation brings in. */
  function Input(op: Op): nat
  {
    if op.Add? || op.Prepend? then |op.data| else 0
  }

  // ---------- the operations of buffer.c mean that ----------

  ghost function View(b: EvBuffer): Stream
    reads b
  {
    Stream(b.Content(), b.freezeStart, b.freezeEnd)
  }

  /** evbuffer_freeze, evbuffer_unfreeze */
  method SetFreeze(t: EvBuffer, atFront: bool, on: bool)
    modifies t`freezeStart, t`freezeEnd
    ensures t.freezeStart == (if atFront then on else old(t.freezeStart))
    ensures t.freezeEnd == (if atFront then old(t.freezeEnd) else on)
  {
    if atFront {
      t.freezeStart := on;
    } else {
      t.freezeEnd := on;
    }
  }

  /** The operations that hand out bytes. */
  method ExecOut(t: EvBuffer, op: Op) returns (seen: Seen)
    requires t.Ready() && t.totalLen <= EV_SIZE_MAX && (op.Copyout? || op.Remove? || op.Pullup? || op.Readln?)
    modifies t, t.m.repr
    ensures t.Ready() && fresh(t.m.repr - old(t.m.repr))
    ensures (View(t), seen) == ApplyOne(old(View(t)), op)
  {
    hide Real, Flat, Chain.Data, Layout.Packed, Layout.TailEmpty, NextLine;
    PackedTailEmpty(t.m);
    ghost var c := t.Content();
    var r, bytes := -1, [];
    match op {
    case Copyout(n) =>
      r, bytes := t.Copyout(n);
    case Remove(n) =>
      r, bytes := t.Remove(n);
      assert r >= 0 ==> c[..r] == bytes && c[r..] == t.Content();
    case Pullup(size) =>
      var chain := BufferPullup.Pullup(t, size);
      if chain != null {
        var n := if size < 0 then t.totalLen else size;
        r, bytes := 0, chain.Data()[..n];
        assert c[..n] == bytes;
      }
    case Readln(style) =>
      var line, n := BufferSearch.Readln(t, style);
      if line != None {
        r, bytes := n, line.value;
      }
    }
    seen := Seen(r, bytes);
  }

  method ExecOne(t: EvBuffer, op: Op) returns (seen: Seen)
    requires t.Ready() && t.totalLen <= EV_SIZE_MAX && !op.AddBuffer? && !op.PrependBuffer? && !op.RemoveBuffer?
    modifies t, t.m.repr
    ensures t.Ready() && fresh(t.m.repr - old(t.m.repr))
    ensures (View(t), seen) == ApplyOne(old(View(t)), op)
  {
    hide Real, Flat, Chain.Data, Layout.Packed, Layout.TailEmpty, NextLine;
    PackedTailEmpty(t.m);
    ghost var c := t.Content();
    assert c[|c|..] == [] && c[0..] == c;
    var r := 0;
    if op.Add? {
      t.ReadyToAdd(op.data);
      r := t.Add(op.data);
    } else if op.Prepend? {
      r := t.Prepend(op.data);
    } else if op.Drain? {
      r := t.Drain(op.n);
    } else if op.Freeze? {
      SetFreeze(t, op.atFront, op.on);
    } else {
      seen := ExecOut(t, op);
      return;
    }
    seen := Seen(r, []);
  }

  /** One operation of a run: `t` is its target, `o` the other buffer. */
  method Exec(t: EvBuffer, o: EvBuffer, op: Op) returns (seen: Seen)
    requires t.Ready() && o.Ready() && Apart(t, o) && t.totalLen + o.totalLen + Input(op) <= EV_SIZE_MAX
    modifies t, o, t.m.repr, o.m.repr
    ensures t.Ready() && o.Ready() && Apart(t, o) && fresh(t.m.repr + o.m.repr - old(t.m.repr + o.m.repr))
    ensures (View(t), View(o), seen) == Apply(old(View(t)), old(View(o)), op)
  {
    hide Real, Flat, Chain.Data, Layout.Packed, Layout.TailEmpty, ApplyOne;
    PackedTailEmpty(t.m);
    PackedTailEmpty(o.m);
    ghost var a, b := t.Content(), o.Content();
    assert a + b[..0] == a + [] == [] + a == a && b[0..] == b;
    match op {
    case AddBuffer =>
      var r := BufferMoves.AddBuffer(t, o);
      seen := Seen(r, []);
    case PrependBuffer =>
      var r := BufferMoves.PrependBuffer(t, o);
      seen := Seen(r, []);
    case RemoveBuffer(n) =>
      var r := BufferMoves.RemoveBuffer(o, t, n);
      seen := Seen(r, []);
    case _ =>
      seen := ExecOne(t, op);
    }
  }

  // ---------- runs ----------

  /** One step of a run: the operation, and whether the second buffer is its target. */
  datatype Step = Step(op: Op, onSecond: bool)

  datatype World = World(a: Stream, b: Stream)

  const EMPTY := World(Stream([], false, false), Stream([], false, false))

  function Next(w: World, s: Step): (r: (World, Seen))
  {
    if s.onSecond then
      var (b, a, seen) := Apply(w.b, w.a, s.op);
      (World(a, b), seen)
    else
      var (a, b, seen) := Apply(w.a, w.b, s.op);
      (World(a, b), seen)
  }

  /** The streams after a run of steps. */
  function End(w: World, steps: seq<Step>): (r: World)
    decreases |steps|
  {
    if steps == [] then w else End(Next(w, steps[0]).0, steps[1..])
  }

  /** What the calls of a run returned. */
  function Results(w: World, steps: seq<Step>): (r: seq<Seen>)
    decreases |steps|
  {
    if steps == [] then [] else [Next(w, steps[0]).1] + Results(Next(w, steps[0]).0, steps[1..])
  }

  function Inputs(steps: seq<Step>): nat
  {
    if steps == [] then 0 else Input(steps[0].op) + Inputs(steps[1..])
  }

  lemma OneSize(t: Stream, op: Op)
    requires !op.AddBuffer? && !op.PrependBuffer? && !op.RemoveBuffer?
    ensures |ApplyOne(t, op).0.bytes| <= |t.bytes| + Input(op)
  {
    hide NextLine;
  }

  /** No operation makes bytes: what is in the two streams was in them or came in. */
  lemma NextSize(w: World, s: Step)
    ensures var r := Next(w, s).0; |r.a.bytes| + |r.b.bytes| <= |w.a.bytes| + |w.b.bytes| + Input(s.op)
  {
    hide ApplyOne;
    if !s.op.AddBuffer? && !s.op.PrependBuffer? && !s.op.RemoveBuffer? {
      OneSize(if s.onSecond then w.b else w.a, s.op);
    }
  }

  /** A run one step longer. */
  lemma {:induction false} RunSnoc(w: World, steps: seq<Step>, s: Step)
    ensures End(w, steps + [s]) == Next(End(w, steps), s).0
    ensures Results(w, steps + [s]) == Results(w, steps) + [Next(End(w, steps), s).1]
    decreases |steps|
  {
    hide Next;
    if steps == [] {
      assert [s][1..] == [];
    } else {
      assert (steps + [s])[1..] == steps[1..] + [s];
      RunSnoc(Next(w, steps[0]).0, steps[1..], s);
    }
  }

  lemma {:induction false} NoSteps(w: World)
    ensures End(w, []) == w && Results(w, []) == [] && Inputs([]) == 0
  {
  }

  lemma {:induction false} InputsSplit(steps: seq<Step>, k: nat)
    requires k < |steps|
    ensures Inputs(steps[..k]) + Input(steps[k].op) == Inputs(steps[..k + 1]) <= Inputs(steps)
    decreases k
  {
    if k > 0 {
      InputsSplit(steps[1..], k - 1);
      assert steps[..k][1..] == steps[1..][..k - 1] && steps[..k + 1][1..] == steps[1..][..k];
    } else {
      assert steps[..1][1..] == [];
    }
  }

  /** One step of a run on two buffers. */
  method ExecStep(a: EvBuffer, b: EvBuffer, s: Step) returns (seen: Seen)
    requires a.Ready() && b.Ready() && Apart(a, b) && a.totalLen + b.totalLen + Input(s.op) <= EV_SIZE_MAX
    modifies a, b, a.m.repr, b.m.repr
    ensures a.Ready() && b.Ready() && Apart(a, b) && fresh(a.m.repr + b.m.repr - old(a.m.repr + b.m.repr))
    ensures (World(View(a), View(b)), seen) == Next(old(World(View(a), View(b))), s)
  {
    hide Real, Flat, Chain.Data, Layout.Packed, Layout.TailEmpty, Apply;
    if s.onSecond {
      seen := Exec(b, a, s.op);
    } else {
      seen := Exec(a, b, s.op);
    }
  }

  /**
   Any run from two new buffers: every call returns what the flat streams
   say, and the buffers end up holding the flat streams' bytes.
  */
  method Run(steps: seq<Step>) returns (a: EvBuffer, b: EvBuffer, seen: seq<Seen>)
    requires Inputs(steps) <= EV_SIZE_MAX
    ensures a.Ready() && b.Ready()
    ensures World(View(a), View(b)) == End(EMPTY, steps) && seen == Results(EMPTY, steps)
  {
    hide Real, Flat, Chain.Data, Layout.Packed, Layout.TailEmpty, Next, Input, Inputs, End, Results;
    NoSteps(EMPTY);
    a := new EvBuffer();
    b := new EvBuffer();
    seen := [];
    var i := 0;
    while i < |steps|
      invariant i <= |steps| && a.Ready() && b.Ready() && Apart(a, b)
      invariant fresh(a) && fresh(b) && fresh(a.m.repr) && fresh(b.m.repr)
      invariant World(View(a), View(b)) == End(EMPTY, steps[..i]) && seen == Results(EMPTY, steps[..i])
      invariant a.totalLen + b.totalLen <= Inputs(steps[..i])
    {
      var s := steps[i];
      InputsSplit(steps, i);
      NextSize(World(View(a), View(b)), s);
      RunSnoc(EMPTY, steps[..i], s);
      assert steps[..i] + [s] == steps[..i + 1];
      var r := ExecStep(a, b, s);
      seen := seen + [r];
      i := i + 1;
    }
    assert steps[..i] == steps;
  }

  // ---------- what the flat runs say: nothing is lost, doubled or reordered ----------

  /** Steps of a pipeline: bytes are added to the first buffer, moved to the second, and taken off its front. */
  predicate Pipeline(s: Step)
  {
    match s.op
    case Add(_) => !s.onSecond
    case Prepend(_) => false
    case AddBuffer => s.onSecond
    case PrependBuffer => false
    case RemoveBuffer(_) => s.onSecond
    case Drain(_) => s.onSecond
    case Remove(_) => s.onSecond
    case Readln(_) => s.onSecond
    case _ => true
  }

  /** The bytes on their way through the pipeline, oldest first. */
  function Inside(w: World): seq<byte>
  {
    w.b.bytes + w.a.bytes
  }

  /** The bytes a step brings in. */
  function Given(w: World, s: Step): seq<byte>
  {
    if s.op.Add? && Next(w, s).1.r == 0 then s.op.data else []
  }

  /** The bytes a step takes off the front of the second buffer. */
  function Taken(w: World, s: Step): seq<byte>
  {
    var n := |w.b.bytes| - |Next(w, s).0.b.bytes|;
    if n <= 0 then [] else w.b.bytes[..n]
  }

  function AllGiven(w: World, steps: seq<Step>): seq<byte>
    decreases |steps|
  {
    if steps == [] then [] else Given(w, steps[0]) + AllGiven(Next(w, steps[0]).0, steps[1..])
  }

  function AllTaken(w: World, steps: seq<Step>): seq<byte>
    decreases |steps|
  {
    if steps == [] then [] else Taken(w, steps[0]) + AllTaken(Next(w, steps[0]).0, steps[1..])
  }

  /** An operation on the second buffer alone takes bytes off its front, or none. */
  lemma OneTakes(t: Stream, op: Op)
    requires op.Drain? || op.Remove? || op.Readln? || op.Copyout? || op.Pullup? || op.Freeze?
    ensures var s := ApplyOne(t, op).0.bytes; |s| <= |t.bytes| && t.bytes == t.bytes[..|t.bytes| - |s|] + s
  {
    hide NextLine;
  }

  lemma StepFifo(w: World, s: Step)
    requires Pipeline(s)
    ensures Inside(w) + Given(w, s) == Taken(w, s) + Inside(Next(w, s).0)
  {
    if s.op.AddBuffer? || s.op.RemoveBuffer? {
      MoveFifo(w, s);
    } else if s.op.Add? {
      AddFifo(w, s);
    } else {
      hide ApplyOne;
      OneTakes(if s.onSecond then w.b else w.a, s.op);
      if !s.onSecond {
        OneKeeps(w.a, s.op);
      }
    }
  }

  lemma OneKeeps(t: Stream, op: Op)
    requires op.Copyout? || op.Pullup? || op.Freeze?
    ensures ApplyOne(t, op).0.bytes == t.bytes
  {
  }

  lemma AddFifo(w: World, s: Step)
    requires s.op.Add? && !s.onSecond
    ensures Inside(w) + Given(w, s) == Taken(w, s) + Inside(Next(w, s).0)
  {
  }

  lemma MoveFifo(w: World, s: Step)
    requires (s.op.AddBuffer? || s.op.RemoveBuffer?) && s.onSecond
    ensures Inside(w) + Given(w, s) == Taken(w, s) + Inside(Next(w, s).0)
  {
    hide ApplyOne;
  }

  lemma Regroup(a: seq<byte>, b: seq<byte>, c: seq<byte>)
    ensures (a + b) + c == a + (b + c)
  {
  }

  /** A pipeline is first in, first out, whatever is moved, refused, frozen or rearranged on the way. */
  lemma {:induction false} Fifo(w: World, steps: seq<Step>)
    requires forall i | 0 <= i < |steps| :: Pipeline(steps[i])
    ensures Inside(w) + AllGiven(w, steps) == AllTaken(w, steps) + Inside(End(w, steps))
    decreases |steps|
  {
    hide Next, Given, Taken, Pipeline, Inside;
    if steps == [] {
      assert Inside(w) + [] == [] + Inside(w);
    } else {
      var w1, rest := Next(w, steps[0]).0, steps[1..];
      StepFifo(w, steps[0]);
      Fifo(w1, rest);
      Regroup(Inside(w), Given(w, steps[0]), AllGiven(w1, rest));
      Regroup(Taken(w, steps[0]), Inside(w1), AllGiven(w1, rest));
      Regroup(Taken(w, steps[0]), AllTaken(w1, rest), Inside(End(w1, rest)));
    }
  }
}
