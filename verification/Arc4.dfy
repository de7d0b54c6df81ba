/** The generator of arc4random.c: its state stays a permutation, no step loses information, and draws are unbiased. */
module Arc4 {
  import opened Options
  import opened Bytes

  // ---------- the state as a value ----------

  /** struct arc4_stream. */
  datatype State = State(i: byte, j: byte, s: seq<byte>)

  /** The array holds every byte exactly once. */
  ghost predicate Permutation(s: seq<byte>)
  {
    |s| == 256 && (forall m, n | 0 <= m < n < 256 :: s[m] != s[n]) && forall x: byte :: x in s
  }

  /** Addition of unsigned chars. */
  function Add(a: byte, b: byte): (r: byte)
  {
    (a as int + b as int) % 256
  }

  function Sub(a: byte, b: byte): (r: byte)
    ensures Add(r, b) == a && forall c: byte :: Add(c, b) == a ==> c == r
  {
    (a as int + 256 - b as int) % 256
  }

  function Swap(s: seq<byte>, i: nat, j: nat): (r: seq<byte>)
    requires i < |s| && j < |s|
  {
    s[i := s[j]][j := s[i]]
  }

  /** One step of the key schedule (`key` from the data) or of the output (`key` zero). */
  function Step(st: State, key: byte): (r: State)
    requires |st.s| == 256
    ensures |r.s| == 256
  {
    var i := Add(st.i, 1);
    var j := Add(Add(st.j, st.s[i]), key);
    State(i, j, Swap(st.s, i, j))
  }

  /** The byte that arc4_getbyte returns after its step. */
  function Output(st: State): byte
    requires |st.s| == 256
  {
    st.s[Add(st.s[st.i], st.s[st.j])]
  }

  /** The first three bytes from a new array, without any key. */
  lemma {:induction false} FirstBytes(s: seq<byte>)
    requires |s| == 256 && forall n | 0 <= n < 256 :: s[n] == n
    ensures var s1 := Step(State(0, 0, s), 0);
            var s2 := Step(s1, 0);
            var s3 := Step(s2, 0);
            Output(s1) == 2 && Output(s2) == 5 && Output(s3) == 7
  {
    var s1 := Step(State(0, 0, s), 0);
    assert s1.i == 1 && s1.j == 1 && s1.s == s;
    var s2 := Step(s1, 0);
    assert s2.i == 2 && s2.j == 3 && s2.s[2] == 3 && s2.s[3] == 2;
    var s3 := Step(s2, 0);
    assert s3.i == 3 && s3.j == 5 && s3.s[3] == 5 && s3.s[5] == 2;
  }

  lemma {:induction false} SwapKeeps(s: seq<byte>, i: nat, j: nat)
    requires Permutation(s) && i < 256 && j < 256
    ensures Permutation(Swap(s, i, j))
  {
    var r := Swap(s, i, j);
    forall m, n | 0 <= m < n < 256
      ensures r[m] != r[n]
    {
      assert r[m] == s[if m == i then j else if m == j then i else m];
      assert r[n] == s[if n == i then j else if n == j then i else n];
    }
    forall x: byte
      ensures x in r
    {
      assert x in s;
      var m :| 0 <= m < 256 && s[m] == x;
      assert r[if m == i then j else if m == j then i else m] == x;
    }
  }

  lemma {:induction false} Identity(s: seq<byte>)
    requires |s| == 256 && forall n | 0 <= n < 256 :: s[n] == n
    ensures Permutation(s)
  {
    forall x: byte
      ensures x in s
    {
      assert s[x] == x;
    }
  }

  /** The step undone. */
  function Unstep(st: State, key: byte): (r: State)
    requires |st.s| == 256
  {
    State(Sub(st.i, 1), Sub(Sub(st.j, key), st.s[st.j]), Swap(st.s, st.i, st.j))
  }

  /** No step loses information: the state before can be computed from the state after. */
  lemma {:induction false} StepReversible(st: State, key: byte)
    requires |st.s| == 256
    ensures Unstep(Step(st, key), key) == st
  {
    hide Add, Sub;
    var i := Add(st.i, 1);
    var j := Add(Add(st.j, st.s[i]), key);
    var r := Step(st, key);
    assert r.s[j] == st.s[i];
    assert Sub(i, 1) == st.i;
    assert Sub(j, key) == Add(st.j, st.s[i]);
    assert Swap(r.s, i, j) == st.s;
  }

  // ---------- the state in place ----------

  /** The state after the key bytes `n` up to 256 of the data. */
  function Keyed(st: State, dat: seq<byte>, n: nat): (r: State)
    requires |st.s| == 256 && dat != [] && n <= 256
    ensures |r.s| == 256
  {
    if n == 0 then st else Step(Keyed(st, dat, n - 1), dat[(n - 1) % |dat|])
  }

  /** The state after the keys of all chunks of 256 bytes. */
  function AllKeyed(st: State, dat: seq<byte>): (r: State)
    requires |st.s| == 256
    ensures |r.s| == 256
    decreases |dat|
  {
    if dat == [] then st else AllKeyed(AfterKey(st, dat), if |dat| <= 256 then [] else dat[256..])
  }

  /** arc4_addrandom. */
  function AfterKey(st: State, dat: seq<byte>): (r: State)
    requires |st.s| == 256 && dat != []
    ensures |r.s| == 256
  {
    var k := Keyed(st.(i := Sub(st.i, 1)), dat, 256);
    k.(j := k.i)
  }

  /** Keying is 256 steps, and step `n` uses byte `n` of the data repeated without end. */
  lemma {:induction false} KeyTrace(st: State, dat: seq<byte>) returns (t: seq<State>)
    requires |st.s| == 256 && dat != []
    ensures |t| == 257 && (forall n | 0 <= n <= 256 :: |t[n].s| == 256) && t[0] == State(Sub(st.i, 1), st.j, st.s)
    ensures forall n, m | 0 <= n < m <= 256 && m == n + 1 :: t[m] == Step(t[n], dat[n % |dat|])
    ensures AfterKey(st, dat) == State(t[256].i, t[256].i, t[256].s)
  {
    hide Step, Keyed;
    var start, last: nat := st.(i := Sub(st.i, 1)), 256;
    t := seq(last + 1, n requires 0 <= n <= last => Keyed(start, dat, n));
    forall n, m | 0 <= n < m <= last && m == n + 1
      ensures t[m] == Step(t[n], dat[n % |dat|])
    {
      KeyedNext(start, dat, n);
    }
    KeyedFirst(start, dat);
  }

  lemma {:induction false} KeyedFirst(st: State, dat: seq<byte>)
    requires |st.s| == 256 && dat != []
    ensures Keyed(st, dat, 0) == st
  {
  }

  lemma {:induction false} KeyedNext(st: State, dat: seq<byte>, n: nat)
    requires |st.s| == 256 && dat != [] && n < 256
    ensures Keyed(st, dat, n + 1) == Step(Keyed(st, dat, n), dat[n % |dat|])
  {
    hide Step;
  }

  /** Only as many bytes count as there are steps, and only what they repeat. */
  lemma {:induction false} SameKey(st: State, dat: seq<byte>, more: seq<byte>, n: nat)
    requires |st.s| == 256 && dat != [] && more != [] && n <= 256
    requires forall k | 0 <= k < 256 :: dat[k % |dat|] == more[k % |more|]
    ensures Keyed(st, dat, n) == Keyed(st, more, n)
  {
    hide Step;
    if n > 0 {
      SameKey(st, dat, more, n - 1);
      assert dat[(n - 1) % |dat|] == more[(n - 1) % |more|];
    }
  }

  lemma {:induction false} SmallMod(k: nat, n: nat)
    requires k < n
    ensures k % n == k
  {
  }

  /** Data in chunks of 256 bytes is as good as one chunk after the other. */
  lemma {:induction false} KeyChunks(st: State, a: seq<byte>, b: seq<byte>)
    requires |st.s| == 256 && |a| % 256 == 0
    ensures AllKeyed(st, a + b) == AllKeyed(AllKeyed(st, a), b)
    decreases |a|
  {
    hide AfterKey;
    if a == [] {
      assert a + b == b;
    } else {
      assert (a + b)[256..] == a[256..] + b;
      FirstChunk(st, a, b);
      KeyChunks(AfterKey(st, a), a[256..], b);
      assert |a| == 256 ==> a[256..] == [];
    }
  }

  lemma {:induction false} FirstChunk(st: State, a: seq<byte>, b: seq<byte>)
    requires |st.s| == 256 && |a| >= 256
    ensures AfterKey(st, a + b) == AfterKey(st, a)
  {
    hide Keyed;
    var last: nat := 256;
    forall k | 0 <= k < last
      ensures (a + b)[k % |a + b|] == a[k % |a|]
    {
      SmallMod(k, |a|);
      SmallMod(k, |a + b|);
    }
    SameKey(st.(i := Sub(st.i, 1)), a + b, a, last);
  }

  /** The state after `n` output bytes. */
  function Drawn(st: State, n: nat): (r: State)
    requires |st.s| == 256
    ensures |r.s| == 256
  {
    if n == 0 then st else Step(Drawn(st, n - 1), 0)
  }

  /** Two different states never meet again. */
  lemma {:induction false} NeverMeet(a: State, b: State, n: nat)
    requires |a.s| == 256 && |b.s| == 256 && Drawn(a, n) == Drawn(b, n)
    ensures a == b
  {
    hide Step, Unstep;
    if n > 0 {
      StepReversible(Drawn(a, n - 1), 0);
      StepReversible(Drawn(b, n - 1), 0);
      NeverMeet(a, b, n - 1);
    }
  }

  class Stream {
    var i: byte
    var j: byte
    const s: array<byte>

    /** The state as a value; it stays a permutation. */
    ghost function Now(): State
      reads this, s
    {
      State(i, j, s[..])
    }

    ghost predicate Valid()
      reads this, s
    {
      s.Length == 256 && Permutation(s[..])
    }

    /** arc4_init. */
    constructor ()
      ensures Valid() && i == 0 && j == 0 && fresh(s) && forall n | 0 <= n < 256 :: s[n] == n
    {
      s := new byte[256];
      i, j := 0, 0;
      new;
      var n: nat := 0;
      while n < 256
        invariant n <= 256 && forall k | 0 <= k < n :: s[k] == k
        modifies s
      {
        s[n] := n;
        n := n + 1;
      }
      Identity(s[..]);
    }

    /** arc4_getbyte. */
    method GetByte() returns (r: byte)
      requires Valid()
      modifies this, s
      ensures Valid() && Now() == Step(old(Now()), 0) && r == Output(Now())
    {
      i := Add(i, 1);
      var si := s[i];
      j := Add(j, si);
      var sj := s[j];
      SwapKeeps(s[..], i, j);
      s[i] := sj;
      s[j] := si;
      r := s[Add(si, sj)];
      assert s[..] == Swap(old(s[..]), i, j);
    }

    /** One turn of the loop in arc4_addrandom. */
    method Mix(key: byte)
      requires Valid()
      modifies this, s
      ensures Valid() && Now() == Step(old(Now()), key)
    {
      i := Add(i, 1);
      var si := s[i];
      j := Add(Add(j, si), key);
      SwapKeeps(s[..], i, j);
      s[i] := s[j];
      s[j] := si;
      assert s[..] == Swap(old(s[..]), i, j);
    }

    /** arc4_addrandom: only the first 256 bytes count. */
    method AddRandom(dat: seq<byte>)
      requires Valid() && dat != []
      modifies this, s
      ensures Valid() && Now() == AfterKey(old(Now()), dat)
    {
      hide Permutation, Step;
      i := Sub(i, 1);
      ghost var start := Now();
      var n: nat := 0;
      while n < 256
        invariant n <= 256 && Valid() && Now() == Keyed(start, dat, n)
      {
        Mix(dat[n % |dat|]);
        n := n + 1;
      }
      j := i;
    }

    /** arc4random_addrandom on an initialised generator: every byte counts. */
    method AddAll(dat: seq<byte>)
      requires Valid()
      modifies this, s
      ensures Valid() && Now() == AllKeyed(old(Now()), dat)
    {
      hide Permutation, AfterKey;
      var at: nat := 0;
      assert dat[0..] == dat;
      while at < |dat|
        invariant Valid() && AllKeyed(Now(), if at <= |dat| then dat[at..] else []) == AllKeyed(old(Now()), dat)
        decreases |dat| - at
      {
        AddRandom(dat[at..]);
        if at + 256 <= |dat| {
          assert dat[at..][256..] == dat[at + 256..];
        }
        at := at + 256;
      }
    }

    /** The end of arc4_stir: the early bytes are thrown away. */
    method Stir(entropy: seq<byte>)
      requires Valid() && entropy != []
      modifies this, s
      ensures Valid() && Now() == Drawn(AllKeyed(old(Now()), entropy), 12 * 256)
    {
      hide Permutation, Step, Keyed;
      AddAll(entropy);
      ghost var start := Now();
      var n: nat := 0;
      while n < 12 * 256
        invariant n <= 12 * 256 && Valid() && Now() == Drawn(start, n)
      {
        var unused := GetByte();
        n := n + 1;
      }
    }

    /** arc4_getword: four bytes, the first one highest. */
    method GetWord() returns (word: nat)
      requires Valid()
      modifies this, s
      ensures Valid() && word < 0x1_0000_0000 && Now() == Drawn(old(Now()), 4)
      ensures forall k | 1 <= k <= 4 :: Output(Drawn(old(Now()), k)) == word / Shift(4 - k) % 256
    {
      hide Permutation, Step, Output;
      ghost var start := Now();
      assert Drawn(start, 0) == start;
      var a := GetByte();
      assert Now() == Drawn(start, 1);
      var b := GetByte();
      assert Now() == Drawn(start, 2);
      var c := GetByte();
      assert Now() == Drawn(start, 3);
      var d := GetByte();
      assert Now() == Drawn(start, 4);
      word := (a as int) * 0x100_0000 + (b as int) * 0x1_0000 + (c as int) * 0x100 + d as int;
      WordBytes(a, b, c, d);
      forall k | 1 <= k <= 4
        ensures Output(Drawn(start, k)) == word / Shift(4 - k) % 256
      {
        assert k == 1 || k == 2 || k == 3 || k == 4;
      }
    }
  }

  function Shift(k: nat): (r: nat)
    ensures r > 0
  {
    if k == 0 then 1 else if k == 1 then 0x100 else if k == 2 then 0x1_0000 else 0x100_0000
  }

  lemma {:induction false} WordBytes(a: byte, b: byte, c: byte, d: byte)
    ensures var word := (a as int) * 0x100_0000 + (b as int) * 0x1_0000 + (c as int) * 0x100 + d as int;
            && word < 0x1_0000_0000 && word / Shift(3) % 256 == a && word / Shift(2) % 256 == b
            && word / Shift(1) % 256 == c && word / Shift(0) % 256 == d
  {
    var word := (a as int) * 0x100_0000 + (b as int) * 0x1_0000 + (c as int) * 0x100 + d as int;
    LowByte((a as int) * 0x1_0000 + (b as int) * 0x100 + c as int, d);
    LowByte((a as int) * 0x100 + b as int, c);
    LowByte(a as int, b);
    LowByte(0, a);
    TwiceShifted(word);
  }

  lemma {:induction false} LowByte(high: nat, low: byte)
    ensures (high * 256 + low as int) % 256 == low && (high * 256 + low as int) / 256 == high
  {
  }

  lemma {:induction false} TwiceShifted(word: nat)
    ensures word / Shift(0) == word && word / Shift(1) == word / 256
    ensures word / Shift(2) == word / 256 / 256 && word / Shift(3) == word / 256 / 256 / 256
  {
  }
}
