/**
 Power-of-two arithmetic as lib/allocators.c does it: with masks, on machine words.

 Bitwise operators are defined on naturals, bit by bit; the lemmas show what the mask
 idioms of the source compute.
 */
module Bits {

  /** 2 to the power k. */
  function Pow2(k: nat): (r: nat)
    ensures r >= 1
  {
    if k == 0 then 1 else 2 * Pow2(k - 1)
  }

  function Times(x: nat, y: nat): (r: nat)
    ensures r == x * y
  {
    x * y
  }

  function BitAnd(a: nat, b: nat): nat
  {
    if a == 0 || b == 0 then 0
    else 2 * BitAnd(a / 2, b / 2) + (a % 2) * (b % 2)
  }

  function BitOr(a: nat, b: nat): nat
    decreases a + b
  {
    if a == 0 then b
    else if b == 0 then a
    else 2 * BitOr(a / 2, b / 2) + (if a % 2 == 1 || b % 2 == 1 then 1 else 0)
  }

  /** The test of is_power_of_two(). */
  predicate IsPowerOfTwo(x: nat)
  {
    x != 0 && BitAnd(x, x - 1) == 0
  }

  /** Round p up to a multiple of a, over the unbounded integers. */
  function RoundUp(p: nat, a: nat): nat
    requires a > 0
  {
    if p % a == 0 then p else p + (a - p % a)
  }

  /** align_forward_size() and align_forward_uintptr(), on words of `limit` values. */
  function AlignForward(p: nat, a: nat, limit: nat): nat
    requires a > 0 && limit > 0
  {
    var modulo := BitAnd(p, a - 1);
    if modulo != 0 then (p + a - modulo) % limit else p
  }

  lemma {:induction false} AndWithAllOnes(p: nat, k: nat)
    ensures BitAnd(p, Pow2(k) - 1) == p % Pow2(k)
  {
    if k == 0 {
      ModUnique(p, 1, p, 0);
    } else {
      AndWithAllOnes(p / 2, k - 1);
      AndOfDouble(p, Pow2(k - 1));
    }
  }

  lemma {:induction false} AndOfDouble(p: nat, m: nat)
    requires m > 0 && BitAnd(p / 2, m - 1) == (p / 2) % m
    ensures BitAnd(p, 2 * m - 1) == p % (2 * m)
  {
    AndWithOdd(p, m);
    ModOfDouble(p, m);
  }

  lemma {:induction false} AndWithOdd(p: nat, m: nat)
    requires m > 0
    ensures BitAnd(p, 2 * m - 1) == 2 * BitAnd(p / 2, m - 1) + p % 2
  {
    assert (2 * m - 1) / 2 == m - 1 && (2 * m - 1) % 2 == 1;
  }

  lemma {:induction false} ModOfDouble(p: nat, m: nat)
    requires m > 0
    ensures p % (2 * m) == 2 * ((p / 2) % m) + p % 2
  {
    var h, q, b := p / 2, (p / 2) / m, p % 2;
    assert h == m * q + h % m;
    assert p == (2 * m) * q + (2 * (h % m) + b);
    ModUnique(p, 2 * m, q, 2 * (h % m) + b);
  }

  lemma {:induction false} ModUnique(x: int, d: int, q: int, r: int)
    requires d > 0 && 0 <= r < d && x == d * q + r
    ensures x % d == r && x / d == q
  {
    var q', r' := x / d, x % d;
    assert x == d * q' + r';
    assert d * (q - q') == r' - r;
    Scaling(d, q - q');
  }

  lemma {:induction false} Scaling(a: int, k: int)
    requires a > 0
    ensures k >= 1 ==> a * k >= a
    ensures k <= -1 ==> a * k <= -a
    ensures k == 0 ==> a * k == 0
  {
  }

  /** x & (x - 1) == 0 singles out the powers of two, and only those. */
  lemma {:induction false} IsPowerOfTwoIsExact(x: nat)
    ensures IsPowerOfTwo(x) <==> exists k: nat :: x == Pow2(k)
  {
    if IsPowerOfTwo(x) {
      var k := Log2(x);
    }
    forall k: nat | x == Pow2(k)
      ensures IsPowerOfTwo(x)
    {
      PowerPassesTest(k);
    }
  }

  lemma {:induction false} PowerPassesTest(k: nat)
    ensures IsPowerOfTwo(Pow2(k))
  {
    if k > 0 {
      PowerPassesTest(k - 1);
      var h := Pow2(k - 1);
      assert (2 * h - 1) / 2 == h - 1 && (2 * h) % 2 == 0;
    }
  }

  lemma {:induction false} Log2(x: nat) returns (k: nat)
    requires IsPowerOfTwo(x)
    ensures x == Pow2(k)
  {
    if x == 1 {
      k := 0;
    } else {
      var h := x / 2;
      if x % 2 == 1 {
        assert (x - 1) / 2 == h;
        AndSelf(h);
      } else {
        assert (x - 1) / 2 == h - 1;
      }
      k := Log2(h);
      k := k + 1;
    }
  }

  lemma {:induction false} AndSelf(x: nat)
    ensures BitAnd(x, x) == x
  {
    if x > 0 {
      AndSelf(x / 2);
    }
  }

  /** p & (a - 1) is p mod a when a is a power of two. */
  lemma {:induction false} MaskIsMod(p: nat, a: nat)
    requires IsPowerOfTwo(a)
    ensures BitAnd(p, a - 1) == p % a
  {
    IsPowerOfTwoIsExact(a);
    var k: nat :| a == Pow2(k);
    AndWithAllOnes(p, k);
  }

  /** Two powers of two: the smaller divides the larger. */
  lemma {:induction false} PowersDivide(a: nat, b: nat)
    requires IsPowerOfTwo(a) && IsPowerOfTwo(b) && a <= b
    ensures b % a == 0
  {
    IsPowerOfTwoIsExact(a);
    IsPowerOfTwoIsExact(b);
    var j: nat :| a == Pow2(j);
    var k: nat :| b == Pow2(k);
    if k < j {
      Pow2Mono(k, j);
    } else {
      Pow2Split(j, k - j);
      ModUnique(b, a, Pow2(k - j), 0);
    }
  }

  lemma {:induction false} Pow2Mono(i: nat, j: nat)
    requires i < j
    ensures Pow2(i) < Pow2(j)
  {
    if i + 1 < j {
      Pow2Mono(i, j - 1);
    }
  }

  lemma {:induction false} Pow2Split(i: nat, j: nat)
    ensures Pow2(i + j) == Pow2(i) * Pow2(j)
  {
    if j > 0 {
      Pow2Split(i, j - 1);
      calc {
        Pow2(i + j);
        2 * Pow2(i + (j - 1));
        2 * (Pow2(i) * Pow2(j - 1));
        Pow2(i) * (2 * Pow2(j - 1));
      }
    }
  }

  /** RoundUp is the least multiple of a that is not below p. */
  lemma {:induction false} RoundUpIsLeast(p: nat, a: nat)
    requires a > 0
    ensures RoundUp(p, a) % a == 0 && p <= RoundUp(p, a) < p + a
    ensures forall q: nat | q % a == 0 && p <= q :: RoundUp(p, a) <= q
  {
    var r := RoundUp(p, a);
    if p % a != 0 {
      ModUnique(r, a, p / a + 1, 0);
    }
    forall q: nat | q % a == 0 && p <= q
      ensures r <= q
    {
      MultiplesApart(q, r, a);
    }
  }

  /** Two multiples of a are equal or at least a apart. */
  lemma {:induction false} MultiplesApart(x: int, y: int, a: int)
    requires a > 0 && x % a == 0 && y % a == 0
    ensures x == y || x - y >= a || y - x >= a
    ensures (x - y) % a == 0 && (x + y) % a == 0
  {
    var i, j := x / a, y / a;
    assert x == a * i && y == a * j;
    assert x - y == a * (i - j) && x + y == a * (i + j);
    Scaling(a, i - j);
    ModUnique(x - y, a, i - j, 0);
    ModUnique(x + y, a, i + j, 0);
  }

  /**
   What align_forward_size() returns on size_t arithmetic: the rounded request exactly when
   the request is at most limit - a; above that the sum wraps to 0, less than the request.
   */
  lemma {:induction false} AlignForwardWraps(p: nat, a: nat, limit: nat)
    requires IsPowerOfTwo(a) && a <= limit && limit % a == 0 && p < limit
    ensures AlignForward(p, a, limit) == (if p <= limit - a then RoundUp(p, a) else 0)
    ensures AlignForward(p, a, limit) >= p <==> p <= limit - a
  {
    MaskIsMod(p, a);
    RoundUpIsLeast(p, a);
    MultiplesApart(RoundUp(p, a), limit, a);
    if p <= limit - a {
      if p % a != 0 {
        ModUnique(RoundUp(p, a), limit, 0, RoundUp(p, a));
      }
    } else {
      AboveLastMultiple(p, a, limit);
      ModUnique(limit, limit, 1, 0);
    }
  }

  lemma {:induction false} AboveLastMultiple(p: nat, a: nat, limit: nat)
    requires a > 0 && limit % a == 0 && limit - a < p < limit
    ensures p % a != 0 && RoundUp(p, a) == limit
  {
    if p % a == 0 {
      MultiplesApart(p, limit, a);
    }
    RoundUpIsLeast(p, a);
    MultiplesApart(RoundUp(p, a), limit, a);
  }

  /** A multiple of a multiple of a is a multiple of a. */
  lemma {:induction false} DividesTransitive(a: nat, b: nat, x: nat)
    requires a > 0 && b > 0 && b % a == 0 && x % b == 0
    ensures x % a == 0
  {
    assert b == a * (b / a) && x == b * (x / b);
    assert x == a * ((b / a) * (x / b));
    ModUnique(x, a, (b / a) * (x / b), 0);
  }
}
