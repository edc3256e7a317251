/**
  Bit operations of C's unsigned integers, on natural numbers.

  A value of an n-bit unsigned type is a natural number below Pow2(n). `&`, `|` and `^` are defined
  bit by bit, so that facts about masks and shifts follow by induction on the bits and can be mixed
  freely with integer arithmetic.
*/
module Bits {

  function Pow2(n: nat): (p: nat)
    ensures p > 0
  {
    if n == 0 then 1 else 2 * Pow2(n - 1)
  }

  function And(x: nat, y: nat): nat
  {
    if x == 0 || y == 0 then 0 else 2 * And(x / 2, y / 2) + (if x % 2 == 1 && y % 2 == 1 then 1 else 0)
  }

  function Or(x: nat, y: nat): nat
    decreases x + y
  {
    if x == 0 && y == 0 then 0 else 2 * Or(x / 2, y / 2) + (if x % 2 == 1 || y % 2 == 1 then 1 else 0)
  }

  function Xor(x: nat, y: nat): nat
    decreases x + y
  {
    if x == 0 && y == 0 then 0 else 2 * Xor(x / 2, y / 2) + (if x % 2 != y % 2 then 1 else 0)
  }

  lemma {:induction false} Pow2Add(m: nat, n: nat)
    ensures Pow2(m + n) == Pow2(m) * Pow2(n)
  {
    if m > 0 {
      Pow2Add(m - 1, n);
      TwiceProduct(Pow2(m - 1), Pow2(n));
    }
  }

  lemma TwiceProduct(x: nat, y: nat)
    ensures 2 * (x * y) == (2 * x) * y
  {
  }

  lemma {:induction false} Pow2Monotone(m: nat, n: nat)
    requires m <= n
    ensures Pow2(m) <= Pow2(n)
  {
    if m < n {
      Pow2Monotone(m, n - 1);
    }
  }

  /** The powers of two the integer types of the program are made of. */
  lemma Pow2Values()
    ensures Pow2(3) == 8
    ensures Pow2(8) == 0x100
    ensures Pow2(16) == 0x1_0000
    ensures Pow2(32) == 0x1_0000_0000
    ensures Pow2(64) == 0x1_0000_0000_0000_0000
  {
    assert Pow2(1) == 2 && Pow2(2) == 4 && Pow2(3) == 8 && Pow2(4) == 16;
    Pow2Square(4, 16);
    Pow2Square(8, 0x100);
    Pow2Square(16, 0x1_0000);
    Pow2Square(32, 0x1_0000_0000);
  }

  lemma Pow2Square(n: nat, v: nat)
    requires Pow2(n) == v
    ensures Pow2(2 * n) == v * v
  {
    Pow2Add(n, n);
  }

  lemma {:induction false} OrBound(x: nat, y: nat, n: nat)
    requires x < Pow2(n) && y < Pow2(n)
    ensures Or(x, y) < Pow2(n)
  {
    if n > 0 {
      OrBound(x / 2, y / 2, n - 1);
    }
  }

  lemma {:induction false} XorBound(x: nat, y: nat, n: nat)
    requires x < Pow2(n) && y < Pow2(n)
    ensures Xor(x, y) < Pow2(n)
  {
    if n > 0 {
      XorBound(x / 2, y / 2, n - 1);
    }
  }

  /** Exclusive or with the same value twice is the identity. */
  lemma {:induction false} XorTwice(x: nat, y: nat)
    ensures Xor(Xor(x, y), y) == x
    decreases x + y
  {
    if x != 0 || y != 0 {
      XorTwice(x / 2, y / 2);
    }
  }

  lemma AndUnroll(x: nat, y: nat)
    ensures And(x, y) == 2 * And(x / 2, y / 2) + (if x % 2 == 1 && y % 2 == 1 then 1 else 0)
  {
  }

  /** Masking with the low n bits is the remainder by Pow2(n). */
  lemma {:induction false} AndLowMask(x: nat, n: nat)
    ensures And(x, Pow2(n) - 1) == x % Pow2(n)
  {
    if n == 0 {
    } else {
      var p := Pow2(n - 1);
      calc {
        And(x, 2 * p - 1);
        { LowMaskStep(x, p); }
        2 * And(x / 2, p - 1) + x % 2;
        { AndLowMask(x / 2, n - 1); }
        2 * ((x / 2) % p) + x % 2;
        { HalfRemainder(x, p); }
        x % (2 * p);
      }
    }
  }

  lemma LowMaskStep(x: nat, p: nat)
    requires p > 0
    ensures And(x, 2 * p - 1) == 2 * And(x / 2, p - 1) + x % 2
  {
    AndUnroll(x, 2 * p - 1);
    assert (2 * p - 1) / 2 == p - 1 && (2 * p - 1) % 2 == 1;
  }

  lemma HalfRemainder(x: nat, p: nat)
    requires p > 0
    ensures x % (2 * p) == 2 * ((x / 2) % p) + x % 2
  {
    var q, r := (x / 2) / p, (x / 2) % p;
    assert x / 2 == p * q + r;
    assert x == (2 * p) * q + (2 * r + x % 2);
    RemainderUnique(x, 2 * p, q, 2 * r + x % 2);
  }

  lemma RemainderUnique(x: nat, d: nat, q: nat, r: nat)
    requires d > 0 && r < d
    requires x == d * q + r
    ensures x / d == q && x % d == r
  {
    var q', r' := x / d, x % d;
    assert x == d * q' + r';
    if q > q' {
      MulAtLeast(d, q - q');
    } else if q < q' {
      MulAtLeast(d, q' - q);
    }
  }

  lemma QuotientBound(x: nat, d: nat)
    requires d > 0
    ensures 0 <= x / d <= x
  {
    MulAtLeast(x / d, d);
  }

  lemma MulAtLeast(d: nat, k: nat)
    requires k >= 1
    ensures d * k >= d
  {
    assert d * k == d * (k - 1) + d;
  }

  /** In a w-bit type, masking with ~(Pow2(n) - 1) clears the low n bits. */
  lemma AndHighMask(x: nat, n: nat, w: nat)
    requires n <= w && x < Pow2(w)
    ensures Pow2(n) <= Pow2(w)
    ensures And(x, Pow2(w) - Pow2(n)) == x - x % Pow2(n)
  {
    Pow2Monotone(n, w);
    MaskHigh(x, n, w, Pow2(n), Pow2(w));
  }

  lemma {:induction false} MaskHigh(x: nat, n: nat, w: nat, p: nat, q: nat)
    requires n <= w && x < q && 0 < p <= q && p == Pow2(n) && q == Pow2(w)
    ensures And(x, q - p) == x - x % p
    decreases n
  {
    if n == 0 {
      AndFullMask(x, w);
    } else {
      var p', q' := Pow2(n - 1), Pow2(w - 1);
      Pow2Monotone(n - 1, w - 1);
      assert p == 2 * p' && q == 2 * q' && x / 2 < q';
      MaskHigh(x / 2, n - 1, w - 1, p', q');
      HighMaskUp(x, p', q', p, q);
    }
  }

  lemma AndFullMask(x: nat, w: nat)
    requires x < Pow2(w)
    ensures And(x, Pow2(w) - 1) == x
  {
    AndLowMask(x, w);
    RemainderUnique(x, Pow2(w), 0, x);
  }

  lemma HighMaskUp(x: nat, p: nat, q: nat, p': nat, q': nat)
    requires 0 < p <= q && p' == 2 * p && q' == 2 * q
    requires And(x / 2, q - p) == x / 2 - (x / 2) % p
    ensures And(x, q' - p') == x - x % p'
  {
    HighMaskStep(x, p, q);
    HalfRemainder(x, p);
  }

  lemma HighMaskStep(x: nat, p: nat, q: nat)
    requires p <= q
    ensures And(x, 2 * q - 2 * p) == 2 * And(x / 2, q - p)
  {
    AndUnroll(x, 2 * q - 2 * p);
    assert (2 * q - 2 * p) / 2 == q - p && (2 * q - 2 * p) % 2 == 0;
  }

  /** Joining a shifted high part with a low part that fits below it is addition. */
  lemma {:induction false} OrDisjoint(hi: nat, lo: nat, n: nat)
    requires lo < Pow2(n)
    ensures Or(hi * Pow2(n), lo) == hi * Pow2(n) + lo
  {
    if n > 0 {
      var p := Pow2(n - 1);
      assert hi * (2 * p) == 2 * (hi * p);
      OrDisjoint(hi, lo / 2, n - 1);
    } else {
      OrZero(hi);
    }
  }

  lemma {:induction false} OrZero(x: nat)
    ensures Or(x, 0) == x
  {
    if x > 0 {
      OrZero(x / 2);
    }
  }

  ghost predicate IsPowerOfTwo(x: nat)
  {
    exists k: nat :: x == Pow2(k)
  }

  lemma PowerOfTwoHalf(x: nat)
    requires x > 0 && x % 2 == 0
    ensures IsPowerOfTwo(x) <==> IsPowerOfTwo(x / 2)
  {
    if IsPowerOfTwo(x / 2) {
      var k: nat :| x / 2 == Pow2(k);
      assert x == Pow2(k + 1);
    }
    if IsPowerOfTwo(x) {
      var k: nat :| x == Pow2(k);
      assert k > 0 && x / 2 == Pow2(k - 1);
    }
  }

  lemma OddIsNoPower(x: nat)
    requires x > 1 && x % 2 == 1
    ensures !IsPowerOfTwo(x)
  {
    forall k: nat
      ensures x != Pow2(k)
    {
      assert k > 0 ==> Pow2(k) == 2 * Pow2(k - 1);
    }
  }

  /** The classic test: a positive x has x & (x - 1) == 0 exactly when it is a power of two. */
  lemma {:induction false} PowerOfTwoTest(x: nat)
    requires x > 0
    ensures And(x, x - 1) == 0 <==> IsPowerOfTwo(x)
  {
    if x == 1 {
      assert 1 == Pow2(0);
    } else if x % 2 == 0 {
      PowerOfTwoTest(x / 2);
      PowerOfTwoHalf(x);
      AndPredecessor(x);
    } else {
      AndSelf(x / 2);
      OddIsNoPower(x);
      AndPredecessor(x);
    }
  }

  lemma AndPredecessor(x: nat)
    requires x > 1
    ensures x % 2 == 0 ==> And(x, x - 1) == 2 * And(x / 2, x / 2 - 1)
    ensures x % 2 == 1 ==> And(x, x - 1) == 2 * And(x / 2, x / 2)
  {
    AndUnroll(x, x - 1);
    assert x % 2 == 0 ==> (x - 1) / 2 == x / 2 - 1;
    assert x % 2 == 1 ==> (x - 1) / 2 == x / 2;
  }

  lemma {:induction false} AndSelf(x: nat)
    ensures And(x, x) == x
  {
    if x > 0 {
      AndSelf(x / 2);
    }
  }
}
