/** arc4random_uniform: numbers below a bound, without bias (arc4random.c). */
module Uniform {
  import opened Options

  const TWO32 := 0x1_0000_0000

  /** Arithmetic of 32-bit unsigned integers. */
  function Wrap(x: int): (r: nat)
    ensures r < TWO32
  {
    x % TWO32
  }

  /** ~x */
  function Complement(x: nat): nat
    requires x < TWO32
  {
    TWO32 - 1 - x
  }

  /** The smallest draw that is accepted, computed in 32 bits. */
  function Min(upperBound: nat): nat
    requires 2 <= upperBound < TWO32
  {
    if upperBound > 0x8000_0000 then Wrap(1 + Complement(upperBound))
    else Wrap(Wrap(0xffff_ffff - Wrap(upperBound * 2)) + 1) % upperBound
  }

  lemma {:induction false} AtLeast(k: int, d: int)
    requires k >= 1 && d > 0
    ensures k * d >= d
  {
    assert (k - 1) * d >= 0;
  }

  lemma {:induction false} SmallMultiple(k: int, d: int)
    requires d > 0 && -d < k * d < d
    ensures k == 0
  {
    if k >= 1 {
      AtLeast(k, d);
    } else if k <= -1 {
      AtLeast(-k, d);
    }
  }

  lemma {:induction false} Modulus(a: nat, q: nat, r: nat, d: nat)
    requires d > 0 && r < d && a == q * d + r
    ensures a % d == r && a / d == q
  {
    var q', r' := a / d, a % d;
    assert a == q' * d + r';
    assert (q - q') * d == r' - r;
    SmallMultiple(q - q', d);
  }

  lemma {:induction false} LowBranch(upperBound: nat)
    requires 2 <= upperBound < 0x8000_0000
    ensures Wrap(Wrap(0xffff_ffff - Wrap(upperBound * 2)) + 1) == TWO32 - upperBound * 2
  {
  }

  lemma {:induction false} TwoMore(low: nat, d: nat)
    requires d > 0
    ensures (low + 2 * d) % d == low % d
  {
    var q, r := low / d, low % d;
    assert low == q * d + r;
    assert low + 2 * d == (q + 2) * d + r;
    Modulus(low + 2 * d, q + 2, r, d);
  }

  /** In both branches the number is 2^32 modulo the bound. */
  lemma {:induction false} MinIsRemainder(upperBound: nat)
    requires 2 <= upperBound < TWO32
    ensures Min(upperBound) == TWO32 % upperBound
  {
    if upperBound > 0x8000_0000 {
      Modulus(TWO32, 1, TWO32 - upperBound, upperBound);
    } else if upperBound < 0x8000_0000 {
      LowBranch(upperBound);
      TwoMore(TWO32 - upperBound * 2, upperBound);
    }
  }

  /** The draws that are accepted and give `x`. */
  ghost function Giving(upperBound: nat, x: nat): set<nat>
    requires upperBound >= 1
  {
    set r: nat | TWO32 % upperBound <= r < TWO32 && r % upperBound == x
  }

  /** The numbers from `lo` on in `q` stretches of length `d` that leave the remainder `x`. */
  ghost function Leaving(lo: nat, q: nat, d: nat, x: nat): set<nat>
    requires d >= 1
  {
    set r: nat | lo <= r < lo + q * d && r % d == x
  }

  lemma {:induction false} OnePerStretch(lo: nat, d: nat, x: nat) returns (r: nat)
    requires x < d
    ensures lo <= r < lo + d && r % d == x
  {
    var q, l := lo / d, lo % d;
    assert lo == q * d + l;
    assert (q + 1) * d == q * d + d;
    if l <= x {
      r := q * d + x;
      Modulus(r, q, x, d);
    } else {
      r := (q + 1) * d + x;
      Modulus(r, q + 1, x, d);
    }
  }

  lemma {:induction false} SameRemainder(a: nat, b: nat, d: nat)
    requires d > 0 && a % d == b % d && a - b < d && b - a < d
    ensures a == b
  {
    assert a == a / d * d + a % d && b == b / d * d + b % d;
    assert a - b == (a / d - b / d) * d;
    SmallMultiple(a / d - b / d, d);
  }

  lemma {:induction false} StretchCount(lo: nat, q: nat, d: nat, x: nat)
    requires x < d
    ensures |Leaving(lo, q, d, x)| == q
  {
    if q == 0 {
      assert Leaving(lo, q, d, x) == {};
    } else {
      StretchCount(lo, q - 1, d, x);
      var last := lo + (q - 1) * d;
      assert last + d == lo + q * d;
      var r := OnePerStretch(last, d, x);
      var fewer := Leaving(lo, q - 1, d, x);
      forall t: nat
        ensures t in Leaving(lo, q, d, x) <==> t in fewer + {r}
      {
        if last <= t < last + d && t % d == x {
          SameRemainder(t, r, d);
        }
      }
      assert Leaving(lo, q, d, x) == fewer + {r};
    }
  }

  /** Every result below the bound is given by the same number of accepted draws. */
  lemma {:induction false} Unbiased(upperBound: nat, x: nat)
    requires 2 <= upperBound < TWO32 && x < upperBound
    ensures |Giving(upperBound, x)| == TWO32 / upperBound
  {
    var q := TWO32 / upperBound;
    assert TWO32 % upperBound + q * upperBound == TWO32;
    StretchCount(TWO32 % upperBound, q, upperBound, x);
    assert Giving(upperBound, x) == Leaving(TWO32 % upperBound, q, upperBound, x);
  }

  /** More than half of all draws are accepted. */
  lemma {:induction false} MoreThanHalf(upperBound: nat)
    requires 2 <= upperBound < TWO32
    ensures 2 * (TWO32 - Min(upperBound)) > TWO32
  {
    MinIsRemainder(upperBound);
    if upperBound > 0x8000_0000 {
      Modulus(TWO32, 1, TWO32 - upperBound, upperBound);
    }
  }

  /** arc4random_uniform on the draws of arc4random; nothing when it is still drawing after all of them. */
  method Arc4RandomUniform(upperBound: nat, draws: seq<nat>) returns (r: Maybe<nat>)
    requires upperBound < TWO32 && forall i | 0 <= i < |draws| :: draws[i] < TWO32
    ensures upperBound < 2 ==> r == Some(0)
    ensures upperBound >= 2 && r.Some? ==> exists i :: 0 <= i < |draws| && FirstAccepted(upperBound, draws, i)
                                                       && draws[i] in Giving(upperBound, r.value) && r.value < upperBound
    ensures upperBound >= 2 && r.None? ==> forall i | 0 <= i < |draws| :: draws[i] < TWO32 % upperBound
  {
    hide Giving;
    if upperBound < 2 {
      return Some(0);
    }
    var min: nat;
    if upperBound > 0x8000_0000 {
      min := Wrap(1 + Complement(upperBound));
    } else {
      min := Wrap(Wrap(0xffff_ffff - Wrap(upperBound * 2)) + 1) % upperBound;
    }
    MinIsRemainder(upperBound);
    var i: nat := 0;
    while i < |draws|
      invariant i <= |draws| && forall k | 0 <= k < i :: draws[k] < min
    {
      if draws[i] >= min {
        Gives(upperBound, draws[i]);
        assert FirstAccepted(upperBound, draws, i);
        return Some(draws[i] % upperBound);
      }
      i := i + 1;
    }
    return None;
  }

  ghost predicate FirstAccepted(upperBound: nat, draws: seq<nat>, i: nat)
    requires upperBound >= 2
  {
    i < |draws| && draws[i] >= TWO32 % upperBound && forall k | 0 <= k < i :: draws[k] < TWO32 % upperBound
  }

  lemma {:induction false} Gives(upperBound: nat, draw: nat)
    requires upperBound >= 2 && TWO32 % upperBound <= draw < TWO32
    ensures draw in Giving(upperBound, draw % upperBound)
  {
  }
}
