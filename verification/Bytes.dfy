/** Bytes and the flat view of a list of byte segments. */
module Bytes {
  type byte = b: int | 0 <= b < 256

  /** The concatenation of all segments: the byte stream a chain list stands for. */
  function Flat(segs: seq<seq<byte>>): (r: seq<byte>)
  {
    if segs == [] then [] else segs[0] + Flat(segs[1..])
  }

  lemma {:induction false} FlatAppend(a: seq<seq<byte>>, b: seq<seq<byte>>)
    ensures Flat(a + b) == Flat(a) + Flat(b)
  {
    if a == [] {
      assert a + b == b;
    } else {
      assert (a + b)[0] == a[0] && (a + b)[1..] == a[1..] + b;
      FlatAppend(a[1..], b);
    }
  }

  lemma FlatOne(s: seq<byte>)
    ensures Flat([s]) == s
  {
    var one := [s];
    assert one[1..] == [];
  }

  lemma {:induction false} FlatEmpty(a: seq<seq<byte>>)
    requires forall i | 0 <= i < |a| :: a[i] == []
    ensures Flat(a) == []
  {
    if a != [] {
      FlatEmpty(a[1..]);
    }
  }

  /** Splitting the list at `k` splits the stream. */
  lemma FlatSplit(a: seq<seq<byte>>, k: nat)
    requires k <= |a|
    ensures Flat(a) == Flat(a[..k]) + Flat(a[k..])
  {
    assert a == a[..k] + a[k..];
    FlatAppend(a[..k], a[k..]);
  }

  /** One segment singled out of the list. */
  lemma FlatAt(a: seq<seq<byte>>, k: nat)
    requires k < |a|
    ensures Flat(a[..k + 1]) == Flat(a[..k]) + a[k]
    ensures Flat(a[k..]) == a[k] + Flat(a[k + 1..])
  {
    assert a[..k + 1] == a[..k] + [a[k]];
    FlatAppend(a[..k], [a[k]]);
    FlatOne(a[k]);
  }

  /** Replacing segment `k` replaces its bytes in the stream. */
  lemma FlatSet(a: seq<seq<byte>>, k: nat, d: seq<byte>)
    requires k < |a|
    ensures Flat(a) == Flat(a[..k]) + a[k] + Flat(a[k + 1..])
    ensures Flat(a[k := d]) == Flat(a[..k]) + d + Flat(a[k + 1..])
  {
    FlatSplit(a, k);
    FlatAt(a, k);
    var b := a[k := d];
    FlatSplit(b, k);
    FlatAt(b, k);
    assert b[..k] == a[..k] && b[k + 1..] == a[k + 1..];
  }

  /** Appending to the last segment appends to the stream. */
  lemma FlatAppendLast(a: seq<seq<byte>>, d: seq<byte>)
    requires a != []
    ensures Flat(a[|a| - 1 := a[|a| - 1] + d]) == Flat(a) + d
  {
    FlatSet(a, |a| - 1, a[|a| - 1] + d);
    assert Flat(a[|a|..]) == [];
  }

  /** Prepending to the first segment prepends to the stream. */
  lemma FlatPrependFirst(a: seq<seq<byte>>, d: seq<byte>)
    requires a != []
    ensures Flat(a[0 := d + a[0]]) == d + Flat(a)
  {
    FlatSet(a, 0, d + a[0]);
    assert Flat(a[..0]) == [];
  }

  /** Replacing empty segments from `v` on by `d` appends `d` to the stream. */
  lemma FlatReplaceTail(a: seq<seq<byte>>, v: nat, d: seq<byte>)
    requires v <= |a| && forall i | v <= i < |a| :: a[i] == []
    ensures Flat(a[..v] + [d]) == Flat(a) + d
  {
    hide Flat;
    FlatSplit(a, v);
    FlatEmpty(a[v..]);
    FlatAppend(a[..v], [d]);
    FlatOne(d);
  }

  /** Dropping `k` segments and `n` more bytes of the next drops a prefix of the stream. */
  lemma FlatDrop(a: seq<seq<byte>>, k: nat, n: nat)
    requires k < |a| && n <= |a[k]|
    ensures |Flat(a[..k])| + n <= |Flat(a)|
    ensures Flat(a[k..][0 := a[k][n..]]) == Flat(a)[|Flat(a[..k])| + n..]
  {
    FlatSet(a, k, a[k]);
    FlatSet(a[k..], 0, a[k][n..]);
    assert a[k..][1..] == a[k + 1..];
    assert a[k..][..0] == [];
  }

  /** A reader that wants `n` bytes and has used `k` whole segments can take segment `k`, too. */
  lemma CopyStep(a: seq<seq<byte>>, k: nat, n: nat)
    requires k <= |a| && n <= |Flat(a)| && |Flat(a[..k])| < n
    ensures k < |a| && Flat(a[..k + 1]) == Flat(a[..k]) + a[k]
    ensures |Flat(a[..k + 1])| < n ==> k + 1 < |a|
  {
    FlatSplit(a, k);
    if k < |a| {
      FlatAt(a, k);
      assert k + 1 == |a| ==> a[..k + 1] == a;
    }
  }
}
