/** Percent-encoding in the study server (httpService/http_service.c; section 2.1 of RFC 3986). */
module PercentCodec {
  import opened Bytes

  const PERCENT: byte := 37

  predicate IsAlnum(c: byte)
  {
    48 <= c <= 57 || 65 <= c <= 90 || 97 <= c <= 122
  }

  /** A letter, a digit, or one of / _ . - ~ */
  predicate Plain(c: byte)
  {
    IsAlnum(c) || c == 47 || c == 95 || c == 46 || c == 45 || c == 126
  }

  predicate IsXdigit(c: byte)
  {
    48 <= c <= 57 || 65 <= c <= 70 || 97 <= c <= 102
  }

  /** hexit: the value of a hexadecimal digit, 0 for anything else. */
  function Hexit(c: byte): (v: nat)
    ensures v < 16
  {
    if 48 <= c <= 57 then c - 48
    else if 97 <= c <= 102 then c - 87
    else if 65 <= c <= 70 then c - 55
    else 0
  }

  /** A digit as %02x prints it. */
  function HexDigit(v: nat): (c: byte)
    requires v < 16
    ensures IsXdigit(c) && Hexit(c) == v
  {
    if v < 10 then 48 + v else 87 + v
  }

  function EncodeByte(c: byte): (e: seq<byte>)
    ensures 1 <= |e| <= 3
  {
    if Plain(c) then [c] else [PERCENT, HexDigit(c as int / 16), HexDigit(c as int % 16)]
  }

  function Encode(s: seq<byte>): (e: seq<byte>)
    ensures |e| >= |s|
  {
    if s == [] then [] else Encode(s[..|s| - 1]) + EncodeByte(s[|s| - 1])
  }

  /** An escape starts here. */
  predicate Escape(s: seq<byte>)
  {
    |s| >= 3 && s[0] == PERCENT && IsXdigit(s[1]) && IsXdigit(s[2])
  }

  function Decode(s: seq<byte>): (d: seq<byte>)
    ensures |d| <= |s|
  {
    if s == [] then []
    else if Escape(s) then [Hexit(s[1]) * 16 + Hexit(s[2])] + Decode(s[3..])
    else [s[0]] + Decode(s[1..])
  }

  /** What is no escape is taken as it is. */
  lemma {:induction false} DecodeUnescaped(s: seq<byte>)
    requires forall i | 0 <= i < |s| :: !Escape(s[i..])
    ensures Decode(s) == s
  {
    if s != [] {
      assert s[0..] == s;
      forall i | 0 <= i < |s[1..]|
        ensures !Escape(s[1..][i..])
      {
        assert s[1..][i..] == s[i + 1..];
      }
      DecodeUnescaped(s[1..]);
    }
  }

  /** A blank is escaped, and so are these; a path is not. */
  lemma {:induction false} EncodeSamples()
    ensures EncodeByte(32) == [37, 50, 48] && EncodeByte(37) == [37, 50, 53] && EncodeByte(175) == [37, 97, 102]
    ensures forall c: byte | 47 <= c <= 57 || 65 <= c <= 90 || 97 <= c <= 122 || 45 <= c <= 46 || c == 95 || c == 126 ::
              EncodeByte(c) == [c]
    ensures forall c: byte | c < 45 || 58 <= c <= 64 || 91 <= c <= 94 || c == 96 || 123 <= c <= 125 || c >= 127 ::
              |EncodeByte(c)| == 3
  {
  }

  /** Both cases of a digit are read: "%4A", "%4a"; "%4g" is no escape. */
  lemma {:induction false} DecodeSamples()
    ensures Decode([37, 52, 65]) == [74] == Decode([37, 52, 97])
    ensures Decode([37, 52, 103]) == [37, 52, 103]
  {
    var upper: seq<byte>, lower: seq<byte>, wrong: seq<byte> := [37, 52, 65], [37, 52, 97], [37, 52, 103];
    assert upper[3..] == [] && lower[3..] == [];
    forall i | 0 <= i < 3
      ensures !Escape(wrong[i..])
    {
    }
    DecodeUnescaped(wrong);
  }

  ghost predicate NoNul(s: seq<byte>)
  {
    forall i | 0 <= i < |s| :: s[i] != 0
  }

  /** The array holds the C string `s` from `at` on. */
  ghost predicate Holds(a: array<byte>, at: nat, s: seq<byte>)
    reads a
  {
    at + |s| < a.Length && a[at..at + |s|] == s && a[at + |s|] == 0 && NoNul(s)
  }

  // ---------- decoding undoes encoding ----------

  lemma {:induction false} DecodeFirst(c: byte, rest: seq<byte>)
    ensures Decode(EncodeByte(c) + rest) == [c] + Decode(rest)
  {
    var s := EncodeByte(c) + rest;
    if Plain(c) {
      assert s[1..] == rest;
    } else {
      assert s[3..] == rest;
      assert c as int / 16 * 16 + c as int % 16 == c;
    }
  }

  lemma {:induction false} DecodeFrom(s: seq<byte>, rest: seq<byte>)
    ensures Decode(Encode(s) + rest) == s + Decode(rest)
  {
    hide EncodeByte, Decode;
    if s == [] {
      assert Encode(s) + rest == rest;
    } else {
      var most, c := s[..|s| - 1], s[|s| - 1];
      assert Encode(s) + rest == Encode(most) + (EncodeByte(c) + rest);
      DecodeFrom(most, EncodeByte(c) + rest);
      DecodeFirst(c, rest);
      assert most + ([c] + Decode(rest)) == s + Decode(rest);
    }
  }

  /** Decoding what was encoded gives the string back. */
  lemma {:induction false} DecodeEncode(s: seq<byte>)
    ensures Decode(Encode(s)) == s
  {
    DecodeFrom(s, []);
    assert Encode(s) + [] == Encode(s) && s + [] == s;
  }

  /** Encoded strings have no zero byte, and only characters that need no escape, apart from the percent signs. */
  lemma {:induction false} EncodedIsPlain(s: seq<byte>)
    ensures forall i | 0 <= i < |Encode(s)| :: Plain(Encode(s)[i]) || Encode(s)[i] == PERCENT
  {
    if s != [] {
      EncodedIsPlain(s[..|s| - 1]);
    }
  }

  /** How many characters strencode encodes into `tosize` bytes. */
  function Fitting(s: seq<byte>, tosize: nat, k: nat): (n: nat)
    requires k <= |s|
    ensures k <= n <= |s|
    decreases |s| - k
  {
    if k < |s| && |Encode(s[..k])| + 4 < tosize then Fitting(s, tosize, k + 1) else k
  }

  lemma {:induction false} EncodeGrows(s: seq<byte>, j: nat, k: nat)
    requires j <= k <= |s|
    ensures |Encode(s[..j])| <= |Encode(s[..k])|
  {
    if j < k {
      EncodeGrows(s, j, k - 1);
      assert s[..k][..k - 1] == s[..k - 1];
    }
  }

  /** Everything is encoded if and only if there is room for four more bytes before the last character. */
  lemma {:induction false} AllFits(s: seq<byte>, tosize: nat, k: nat)
    requires k < |s|
    ensures Fitting(s, tosize, k) == |s| <==> |Encode(s[..|s| - 1])| + 4 < tosize
    decreases |s| - k
  {
    EncodeGrows(s, k, |s| - 1);
    if k + 1 < |s| && |Encode(s[..k])| + 4 < tosize {
      AllFits(s, tosize, k + 1);
    }
  }

  /**
   What strencode writes decodes to a prefix of the string, and to all of it if
   and only if four more bytes fit before the last character.
  */
  lemma {:induction false} DecodeFitting(s: seq<byte>, tosize: nat)
    ensures var n := Fitting(s, tosize, 0); Decode(Encode(s[..n])) == s[..n]
    ensures s[..Fitting(s, tosize, 0)] == s <==> s == [] || |Encode(s[..|s| - 1])| + 4 < tosize
  {
    hide Decode, Encode;
    DecodeEncode(s[..Fitting(s, tosize, 0)]);
    if s != [] {
      AllFits(s, tosize, 0);
    }
  }

  // ---------- the loops ----------

  /**
   strencode: a NUL-terminated prefix of the encoding. It lies inside `tosize` bytes exactly if
   there are any; the terminator is always written.
  */
  method Strencode(to: array<byte>, tosize: nat, from: array<byte>, ghost s: seq<byte>)
    requires to != from && Holds(from, 0, s) && tosize <= to.Length != 0
    modifies to
    ensures var n := Fitting(s, tosize, 0);
            Holds(to, 0, Encode(s[..n])) && (|Encode(s[..n])| < tosize <==> tosize > 0)
    ensures forall i | tosize <= i < to.Length && i > 0 :: to[i] == old(to[i])
  {
    hide EncodeByte, Plain;
    var tolen: nat, at: nat := 0, 0;
    assert s[..0] == [];
    while from[at] != 0 && tolen + 4 < tosize
      invariant at <= |s| && tolen == |Encode(s[..at])| && (tolen == 0 || tolen < tosize) && tolen < to.Length
        && to[..tolen] == Encode(s[..at])
      invariant Fitting(s, tosize, at) == Fitting(s, tosize, 0)
      invariant forall i | tosize <= i < to.Length :: to[i] == old(to[i])
      decreases |s| - at
    {
      assert from[at] == s[at];
      assert s[..at + 1][..at] == s[..at] && s[..at + 1][at] == s[at];
      tolen := PutEncoded(to, tolen, from[at]);
      at := at + 1;
    }
    to[tolen] := 0;
    EncodedIsPlain(s[..at]);
    EncodedNoNul(s[..at]);
  }

  lemma {:induction false} EncodedNoNul(s: seq<byte>)
    ensures NoNul(Encode(s))
  {
    EncodedIsPlain(s);
  }

  /** One character; sprintf also ends an escape with a NUL. */
  method PutEncoded(to: array<byte>, tolen: nat, c: byte) returns (len: nat)
    requires tolen + 4 <= to.Length
    modifies to
    ensures len == tolen + |EncodeByte(c)| && to[..len] == old(to[..tolen]) + EncodeByte(c)
    ensures forall i | tolen + 4 <= i < to.Length :: to[i] == old(to[i])
  {
    if Plain(c) {
      to[tolen] := c;
      len := tolen + 1;
    } else {
      to[tolen], to[tolen + 1], to[tolen + 2], to[tolen + 3] := PERCENT, HexDigit(c as int / 16), HexDigit(c as int % 16), 0;
      len := tolen + 3;
    }
  }

  /** One turn of the loop of strdecode: one byte written, one or three read. */
  method DecodeOne(to: array<byte>, t: nat, from: array<byte>, f: nat, ghost left: seq<byte>) returns (next: nat)
    requires Holds(from, f, left) && left != [] && t <= f && t < to.Length
    modifies to
    ensures next == f + (if Escape(left) then 3 else 1) && Holds(from, next, left[next - f..])
    ensures to[t] == (if Escape(left) then Hexit(left[1]) * 16 + Hexit(left[2]) else left[0])
    ensures forall i | 0 <= i < to.Length && i != t :: to[i] == old(to[i])
  {
    assert from[f] == left[0];
    AtMost(from, f, left);
    if from[f] == PERCENT && IsXdigit(from[f + 1]) && IsXdigit(from[f + 2]) {
      to[t] := Hexit(from[f + 1]) * 16 + Hexit(from[f + 2]);
      next := f + 3;
    } else {
      to[t] := from[f];
      next := f + 1;
    }
  }

  /** A NUL is no digit, so looking for an escape never looks past the end of the string. */
  lemma {:induction false} AtMost(a: array<byte>, at: nat, s: seq<byte>)
    requires Holds(a, at, s) && s != []
    ensures if |s| == 1 then a[at + 1] == 0 else a[at + 1] == s[1] && (if |s| == 2 then a[at + 2] == 0 else a[at + 2] == s[2])
  {
    var t := a[at..at + |s|];
    if |s| >= 2 {
      assert t[1] == a[at + 1];
    }
    if |s| >= 3 {
      assert t[2] == a[at + 2];
    }
  }

  /**
   strdecode, whether or not `to` is `from`: the result is the decoded string
   either way, and nothing behind its terminator changes.
  */
  method Strdecode(to: array<byte>, from: array<byte>, ghost s: seq<byte>)
    requires Holds(from, 0, s) && |Decode(s)| < to.Length
    modifies to
    ensures to[..|Decode(s)|] == Decode(s) && to[|Decode(s)|] == 0
    ensures forall i | |Decode(s)| < i < to.Length :: to[i] == old(to[i])
  {
    hide Decode, Escape, Hexit, NoNul, Holds;
    var t: nat, f: nat := 0, 0;
    ghost var left, done: seq<byte> := s, [];
    AtEnd(from, 0, s);
    while from[f] != 0
      invariant t == |done| <= f < from.Length && t < to.Length && Holds(from, f, left) && to[..t] == done
      invariant done + Decode(left) == Decode(s) && t + |Decode(left)| < to.Length
      invariant forall i | t <= i < to.Length :: to[i] == old(to[i])
      decreases |left|
    {
      AtEnd(from, f, left);
      DecodeStep(left);
      var next := DecodeOne(to, t, from, f, left);
      OneMore(done, to[t], Decode(left[next - f..]));
      done := done + [to[t]];
      left := left[next - f..];
      f := next;
      t := t + 1;
      AtEnd(from, f, left);
    }
    AtEnd(from, f, left);
    DecodeNothing();
    to[t] := 0;
  }

  lemma {:induction false} AtEnd(a: array<byte>, at: nat, s: seq<byte>)
    requires Holds(a, at, s)
    ensures at < a.Length && (a[at] == 0 <==> s == [])
  {
    if s != [] {
      assert a[at..at + |s|][0] == a[at] && s[0] != 0;
    }
  }

  lemma {:induction false} OneMore(done: seq<byte>, c: byte, rest: seq<byte>)
    ensures done + ([c] + rest) == (done + [c]) + rest
  {
  }

  lemma {:induction false} DecodeNothing()
    ensures Decode([]) == []
  {
  }

  lemma {:induction false} DecodeStep(s: seq<byte>)
    requires s != []
    ensures Escape(s) ==> |s| >= 3 && Decode(s) == [Hexit(s[1]) * 16 + Hexit(s[2])] + Decode(s[3..])
    ensures !Escape(s) ==> Decode(s) == [s[0]] + Decode(s[1..])
  {
  }
}
