/**
 Domain names in DNS messages (evdns.c): decoding with pointers, encoding with
 name compression (sections 3.1 and 4.1.4 of RFC 1035).
*/
module DnsNames {
  import opened Options
  import opened Bytes

  const DOT: byte := 46
  const MAX_LABELS := 128

  // ---------- what a name in a message means ----------

  /** The offset in a pointer's low 14 bits. */
  function Target(hi: byte, lo: byte): nat
  {
    hi % 64 * 256 + lo
  }

  /** At `j`, message `p` holds the name with these labels, read through `hops` pointers. */
  ghost predicate NameAt(p: seq<byte>, j: nat, labels: seq<seq<byte>>, hops: nat)
    decreases |labels| + hops
  {
    && j < |p|
    && if p[j] == 0 then labels == [] && hops == 0
       else if p[j] >= 64 then
         hops > 0 && j + 1 < |p| && NameAt(p, Target(p[j], p[j + 1]), labels, hops - 1)
       else
         && labels != [] && j + 1 + p[j] <= |p| && labels[0] == p[j + 1..j + 1 + p[j]]
         && NameAt(p, j + 1 + p[j], labels[1..], hops)
  }

  /** The index behind the name at `j`: behind its first zero byte or pointer. */
  function EndOf(p: seq<byte>, j: nat): (r: nat)
    decreases if j < |p| then |p| - j else 0
  {
    if j >= |p| then j
    else if p[j] == 0 then j + 1
    else if p[j] >= 64 then j + 2
    else EndOf(p, j + 1 + p[j])
  }

  /** Text `out` with one more label. */
  function WithLabel(out: seq<byte>, chars: seq<byte>): seq<byte>
  {
    (if out == [] then [] else out + [DOT]) + chars
  }

  /** Text `out` with more labels. */
  function Text(out: seq<byte>, labels: seq<seq<byte>>): (r: seq<byte>)
    ensures |r| >= |out|
    decreases |labels|
  {
    if labels == [] then out else Text(WithLabel(out, labels[0]), labels[1..])
  }

  /** A message holds at most one name at `j`. */
  lemma {:induction false} NameUnique(p: seq<byte>, j: nat, ls: seq<seq<byte>>, h: nat, ls': seq<seq<byte>>, h': nat)
    requires NameAt(p, j, ls, h) && NameAt(p, j, ls', h')
    ensures ls == ls' && h == h'
    decreases |ls| + h
  {
    if p[j] >= 64 {
      NameUnique(p, Target(p[j], p[j + 1]), ls, h - 1, ls', h' - 1);
    } else if p[j] != 0 {
      NameUnique(p, j + 1 + p[j], ls[1..], h, ls'[1..], h');
      assert ls == [ls[0]] + ls[1..] && ls' == [ls'[0]] + ls'[1..];
    }
  }

  /** More bytes behind the message do not change the name. */
  lemma {:induction false} NameStays(p: seq<byte>, more: seq<byte>, j: nat, ls: seq<seq<byte>>, h: nat)
    requires NameAt(p, j, ls, h)
    ensures NameAt(p + more, j, ls, h) && EndOf(p + more, j) == EndOf(p, j)
    decreases |ls| + h
  {
    var q := p + more;
    assert q[j] == p[j] && (j + 1 < |p| ==> q[j + 1] == p[j + 1]);
    if p[j] >= 64 {
      NameStays(p, more, Target(p[j], p[j + 1]), ls, h - 1);
    } else if p[j] != 0 {
      assert q[j + 1..j + 1 + p[j]] == p[j + 1..j + 1 + p[j]];
      NameStays(p, more, j + 1 + p[j], ls[1..], h);
    }
  }

  /** The name at `i` takes at most `h` pointers. */
  ghost predicate Within(p: seq<byte>, i: nat, h: int)
  {
    exists l, k: nat :: k <= h && NameAt(p, i, l, k)
  }

  /**
   The pointers that the name at `j` is read through: `h` different ones, so
   there are not more of them than bytes in the message.
  */
  lemma {:induction false} HopsBound(p: seq<byte>, j: nat, ls: seq<seq<byte>>, h: nat) returns (at: set<nat>)
    requires NameAt(p, j, ls, h)
    ensures |at| == h
    ensures forall i | i in at :: i < |p| && Within(p, i, h)
    decreases |ls| + h
  {
    if p[j] == 0 {
      at := {};
    } else if p[j] >= 64 {
      at := HopsBound(p, Target(p[j], p[j + 1]), ls, h - 1);
      if j in at {
        var l, k: nat :| k <= h - 1 && NameAt(p, j, l, k);
        NameUnique(p, j, ls, h, l, k);
      }
      forall i | i in at
        ensures Within(p, i, h)
      {
        var l, k: nat :| k <= h - 1 && NameAt(p, i, l, k);
      }
      at := at + {j};
      assert Within(p, j, h);
    } else {
      at := HopsBound(p, j + 1 + p[j], ls[1..], h);
    }
  }

  lemma {:induction false} FewBelow(s: set<nat>, n: nat)
    requires forall i | i in s :: i < n
    ensures |s| <= n
  {
    if n > 0 {
      FewBelow(s - {n - 1}, n - 1);
    } else {
      assert s == {};
    }
  }

  // ---------- name_parse ----------

  /**
   name_parse as a recursion.  Each pass uses up a jump or room in the output,
   so the parser stops on every packet.
  */
  function Parse(p: seq<byte>, j: nat, out: seq<byte>, hops: nat, room: nat): (r: Maybe<seq<byte>>)
    requires hops <= |p|
    decreases |p| - hops, if |out| < room then room - |out| else 0
  {
    if j >= |p| then None
    else if p[j] == 0 then if |out| < room then Some(out) else None
    else if p[j] >= 64 then
      if j + 1 >= |p| || Target(p[j], p[j + 1]) >= |p| || hops + 1 > |p| then None
      else Parse(p, Target(p[j], p[j + 1]), out, hops + 1, room)
    else
      var dotted := if out == [] then [] else out + [DOT];
      if (out != [] && |out| + 1 >= room) || |dotted| + p[j] >= room || j + 1 + p[j] > |p| then None
      else Parse(p, j + 1 + p[j], dotted + p[j + 1..j + 1 + p[j]], hops, room)
  }

  /** What is parsed is the name in the message. */
  lemma {:induction false} ParseSound(p: seq<byte>, j: nat, out: seq<byte>, hops: nat, room: nat)
    returns (ls: seq<seq<byte>>, h: nat)
    requires hops <= |p| && Parse(p, j, out, hops, room).Some?
    ensures NameAt(p, j, ls, h) && Parse(p, j, out, hops, room) == Some(Text(out, ls)) && |Text(out, ls)| < room
    decreases |p| - hops, if |out| < room then room - |out| else 0
  {
    if p[j] == 0 {
      ls, h := [], 0;
    } else if p[j] >= 64 {
      ls, h := ParseSound(p, Target(p[j], p[j + 1]), out, hops + 1, room);
      h := h + 1;
    } else {
      var chars := p[j + 1..j + 1 + p[j]];
      var rest;
      rest, h := ParseSound(p, j + 1 + p[j], WithLabel(out, chars), hops, room);
      ls := [chars] + rest;
      assert ls[1..] == rest;
    }
  }

  /** A name in the message that fits the output is parsed. */
  lemma {:induction false} ParseComplete(p: seq<byte>, j: nat, out: seq<byte>, hops: nat, room: nat,
      ls: seq<seq<byte>>, h: nat)
    requires NameAt(p, j, ls, h) && hops + h <= |p| && |Text(out, ls)| < room
    ensures Parse(p, j, out, hops, room) == Some(Text(out, ls))
    decreases |ls| + h
  {
    if p[j] >= 64 {
      var t := Target(p[j], p[j + 1]);
      assert NameAt(p, t, ls, h - 1);
      ParseComplete(p, t, out, hops + 1, room, ls, h - 1);
    } else if p[j] != 0 {
      ParseComplete(p, j + 1 + p[j], WithLabel(out, ls[0]), hops, room, ls[1..], h);
    }
  }

  /** The message holds name `text` at `j`. */
  ghost predicate Holds(p: seq<byte>, j: nat, text: seq<byte>)
  {
    exists ls, h :: NameAt(p, j, ls, h) && text == Text([], ls)
  }

  /** name_parse finds exactly the names that end within the packet and fit the output; no loop check rejects one. */
  lemma {:induction false} ParseIsName(p: seq<byte>, j: nat, room: nat, text: seq<byte>)
    ensures Parse(p, j, [], 0, room) == Some(text) <==> Holds(p, j, text) && |text| < room
  {
    if Parse(p, j, [], 0, room).Some? {
      var ls, h := ParseSound(p, j, [], 0, room);
      assert Holds(p, j, Text([], ls));
    }
    if Holds(p, j, text) && |text| < room {
      var ls, h :| NameAt(p, j, ls, h) && text == Text([], ls);
      var at := HopsBound(p, j, ls, h);
      FewBelow(at, |p|);
      ParseComplete(p, j, [], 0, room, ls, h);
    }
  }

  /**
   How far behind the packet name_parse reads.  It copies a label before it
   looks whether the label ends within the packet.
  */
  function OverRead(p: seq<byte>, j: nat, out: seq<byte>, hops: nat, room: nat): (n: nat)
    requires hops <= |p|
    ensures n <= 63
    decreases |p| - hops, if |out| < room then room - |out| else 0
  {
    if j >= |p| || p[j] == 0 then 0
    else if p[j] >= 64 then
      if j + 1 >= |p| || Target(p[j], p[j + 1]) >= |p| || hops + 1 > |p| then 0
      else OverRead(p, Target(p[j], p[j + 1]), out, hops + 1, room)
    else
      var dotted := if out == [] then [] else out + [DOT];
      if (out != [] && |out| + 1 >= room) || |dotted| + p[j] >= room then 0
      else if j + 1 + p[j] > |p| then j + 1 + p[j] - |p|
      else OverRead(p, j + 1 + p[j], dotted + p[j + 1..j + 1 + p[j]], hops, room)
  }

  /** The labels at `j`, read through `hops` pointers, lead to a last one at `k` that runs out of the packet. */
  ghost predicate RunsOut(p: seq<byte>, j: nat, labels: seq<seq<byte>>, hops: nat, k: nat)
    decreases |labels| + hops
  {
    && j < |p| && p[j] != 0
    && if p[j] >= 64 then
         hops > 0 && j + 1 < |p| && RunsOut(p, Target(p[j], p[j + 1]), labels, hops - 1, k)
       else if j + 1 + p[j] > |p| then labels == [] && hops == 0 && k == j
       else labels != [] && labels[0] == p[j + 1..j + 1 + p[j]] && RunsOut(p, j + 1 + p[j], labels[1..], hops, k)
  }

  /** Reading behind the packet means such a label, and the name is refused. */
  lemma {:induction false} OverReadSound(p: seq<byte>, j: nat, out: seq<byte>, hops: nat, room: nat)
    returns (ls: seq<seq<byte>>, h: nat, k: nat)
    requires hops <= |p| && OverRead(p, j, out, hops, room) > 0
    ensures Parse(p, j, out, hops, room) == None
    ensures RunsOut(p, j, ls, h, k) && k < |p| && OverRead(p, j, out, hops, room) == k + 1 + p[k] - |p|
    ensures hops + h <= |p| && |WithLabel(Text(out, ls), [])| + p[k] < room
    decreases |p| - hops, if |out| < room then room - |out| else 0
  {
    if p[j] >= 64 {
      ls, h, k := OverReadSound(p, Target(p[j], p[j + 1]), out, hops + 1, room);
      h := h + 1;
    } else if j + 1 + p[j] > |p| {
      ls, h, k := [], 0, j;
    } else {
      var chars := p[j + 1..j + 1 + p[j]];
      var rest;
      rest, h, k := OverReadSound(p, j + 1 + p[j], WithLabel(out, chars), hops, room);
      ls := [chars] + rest;
      assert ls[1..] == rest;
    }
  }

  /** A label that runs out of the packet, and still fits the output, is read, if no loop check comes first. */
  lemma {:induction false} OverReadComplete(p: seq<byte>, j: nat, out: seq<byte>, hops: nat, room: nat,
                                            ls: seq<seq<byte>>, h: nat, k: nat)
    requires RunsOut(p, j, ls, h, k) && hops + h <= |p|
    requires k < |p| && |WithLabel(Text(out, ls), [])| + p[k] < room
    ensures OverRead(p, j, out, hops, room) == k + 1 + p[k] - |p| > 0
    decreases |ls| + h
  {
    if p[j] >= 64 {
      OverReadComplete(p, Target(p[j], p[j + 1]), out, hops + 1, room, ls, h - 1, k);
    } else if j + 1 + p[j] <= |p| {
      OverReadComplete(p, j + 1 + p[j], WithLabel(out, ls[0]), hops, room, ls[1..], h, k);
    }
  }

  /** The message leads from `j` to a label that runs out of it and that the output has room for. */
  ghost predicate EndsInLabel(p: seq<byte>, j: nat, room: nat)
  {
    exists ls, h: nat, k: nat :: RunsOut(p, j, ls, h, k) && h <= |p| && k < |p| && |WithLabel(Text([], ls), [])| + p[k] < room
  }

  /** name_parse reads behind the packet exactly if it comes to such a label; the name is then refused. */
  lemma {:induction false} WhenOverRead(p: seq<byte>, j: nat, room: nat)
    ensures OverRead(p, j, [], 0, room) > 0 <==> EndsInLabel(p, j, room)
    ensures OverRead(p, j, [], 0, room) > 0 ==> Parse(p, j, [], 0, room) == None
  {
    hide OverRead, Parse, RunsOut, Text, WithLabel;
    if OverRead(p, j, [], 0, room) > 0 {
      var ls, h, k := OverReadSound(p, j, [], 0, room);
    }
    if EndsInLabel(p, j, room) {
      var ls, h: nat, k: nat :| RunsOut(p, j, ls, h, k) && h <= |p| && k < |p| && |WithLabel(Text([], ls), [])| + p[k] < room;
      OverReadComplete(p, j, [], 0, room, ls, h, k);
    }
  }

  /** A packet that ends with the length byte of a label of 63: 63 bytes behind it are read. */
  lemma {:induction false} OverReadAt(p: seq<byte>)
    requires p != [] && p[|p| - 1] == 63
    ensures OverRead(p, |p| - 1, [], 0, 256) == 63
  {
  }

  /** One pass of the loop. */
  lemma {:induction false} ParseStep(p: seq<byte>, j: nat, out: seq<byte>, hops: nat, room: nat)
    requires hops <= |p|
    ensures j >= |p| ==> Parse(p, j, out, hops, room) == None
    ensures j < |p| && p[j] == 0 ==> Parse(p, j, out, hops, room) == if |out| < room then Some(out) else None
    ensures j < |p| && p[j] >= 64 ==>
              if j + 1 >= |p| || Target(p[j], p[j + 1]) >= |p| || hops + 1 > |p| then Parse(p, j, out, hops, room) == None
              else
                && Parse(p, j, out, hops, room) == Parse(p, Target(p[j], p[j + 1]), out, hops + 1, room)
                && OverRead(p, j, out, hops, room) == OverRead(p, Target(p[j], p[j + 1]), out, hops + 1, room)
    ensures j < |p| && 0 < p[j] < 64 ==>
              var dotted := if out == [] then [] else out + [DOT];
              if (out != [] && |out| + 1 >= room) || |dotted| + p[j] >= room then Parse(p, j, out, hops, room) == None
              else if j + 1 + p[j] > |p| then
                Parse(p, j, out, hops, room) == None && OverRead(p, j, out, hops, room) == j + 1 + p[j] - |p|
              else
                var more := dotted + p[j + 1..j + 1 + p[j]];
                && Parse(p, j, out, hops, room) == Parse(p, j + 1 + p[j], more, hops, room)
                && OverRead(p, j, out, hops, room) == OverRead(p, j + 1 + p[j], more, hops, room)
  {
  }

  lemma {:induction false} NothingThere(p: seq<byte>, j: nat, out: seq<byte>, hops: nat, room: nat)
    requires hops <= |p| <= j
    ensures Parse(p, j, out, hops, room) == None
  {
  }

  /**
   name_parse.  `mem` is the memory the packet lies in, and what the source
   reads must be there.
  */
  method NameParse(mem: seq<byte>, length: nat, idx: nat, room: nat) returns (r: int, name: seq<byte>, end: nat)
    requires length <= |mem| && length + OverRead(mem[..length], idx, [], 0, room) <= |mem|
    ensures r == 0 || r == -1
    ensures r == 0 <==> Parse(mem[..length], idx, [], 0, room).Some?
    ensures r == 0 ==> Parse(mem[..length], idx, [], 0, room) == Some(name) && end == EndOf(mem[..length], idx)
    ensures r != 0 ==> name == [] && end == idx
  {
    hide Parse, OverRead;
    ghost var p := mem[..length];
    var nameEnd: int, j: nat, ptrCount: nat, cp: seq<byte> := -1, idx, 0, [];
    while true
      invariant ptrCount <= length
      invariant Parse(p, idx, [], 0, room) == Parse(p, j, cp, ptrCount, room)
      invariant j < length ==> OverRead(p, idx, [], 0, room) == OverRead(p, j, cp, ptrCount, room)
      invariant if nameEnd < 0 then EndOf(p, idx) == EndOf(p, j) else nameEnd == EndOf(p, idx)
      decreases length - ptrCount, if |cp| < room then room - |cp| else 0
    {
      ParseStep(p, j, cp, ptrCount, room);
      if j >= length {
        return -1, [], idx;
      }
      var labelLen: int := mem[j];
      assert labelLen == p[j];
      j := j + 1;
      if labelLen == 0 {
        break;
      }
      if labelLen >= 64 {
        if j >= length {
          return -1, [], idx;
        }
        var low := mem[j];
        assert low == p[j];
        j := j + 1;
        if nameEnd < 0 {
          nameEnd := j;
        }
        j := labelLen % 64 * 256 + low;
        if j >= length {
          return -1, [], idx;
        }
        ptrCount := ptrCount + 1;
        if ptrCount > length {
          return -1, [], idx;
        }
        continue;
      }
      if cp != [] {
        if |cp| + 1 >= room {
          return -1, [], idx;
        }
        cp := cp + [DOT];
      }
      if |cp| + labelLen >= room {
        return -1, [], idx;
      }
      assert j + labelLen <= length ==> mem[j..j + labelLen] == p[j..j + labelLen];
      cp := cp + mem[j..j + labelLen];
      j := j + labelLen;
      if j >= length {
        NothingThere(p, j, cp, ptrCount, room);
      }
    }
    if |cp| >= room {
      return -1, [], idx;
    }
    return 0, cp, if nameEnd < 0 then j else nameEnd;
  }
}
