/** The C operators the drivers unpack their readings with (`<<`, `>>`, `|`,
    `&`), on non-negative integers, and the facts about them the decoders use:
    an OR of bit fields that do not overlap is a sum, and a mask of low bits
    is a remainder. */
module Bits {

  /** 2 to the power `n`. */
  function Pow2(n: nat): (p: nat)
    ensures p >= 1
  {
    if n == 0 then 1 else 2 * Pow2(n - 1)
  }

  /** `a | b`. */
  function Or(a: nat, b: nat): nat
    decreases a + b
  {
    if a == 0 then b
    else if b == 0 then a
    else 2 * Or(a / 2, b / 2) + (if a % 2 == 1 || b % 2 == 1 then 1 else 0)
  }

  /** `a & b`. */
  function And(a: nat, b: nat): nat
    decreases a + b
  {
    if a == 0 || b == 0 then 0
    else 2 * And(a / 2, b / 2) + (if a % 2 == 1 && b % 2 == 1 then 1 else 0)
  }

  /** `x << n` on a `uint32_t`. */
  function Shl32(x: nat, n: nat): nat {
    (x * Pow2(n)) % 0x1_0000_0000
  }

  /** `x >> n` on an unsigned value. */
  function Shr(x: nat, n: nat): nat {
    if n == 0 then x else Shr(x / 2, n - 1)
  }

  /** The powers of two the drivers' shifts and masks use. */
  lemma Pow2Values()
    ensures Pow2(4) == 0x10 && Pow2(7) == 0x80 && Pow2(3) == 0x08
    ensures Pow2(8) == 0x100 && Pow2(12) == 0x1000 && Pow2(16) == 0x10000
    ensures Pow2(20) == 0x100000 && Pow2(32) == 0x1_0000_0000
  {
  }

  /** A shift that loses no bits multiplies. */
  lemma {:induction false} ShlExact(x: nat, n: nat)
    requires x * Pow2(n) < 0x1_0000_0000
    ensures Shl32(x, n) == x * Pow2(n)
  {
    var y := x * Pow2(n);
    DivModUnique(y, 0x1_0000_0000, 0, y);
  }

  /** Or-ing a value into the zero low `k` bits of another adds it. */
  lemma {:induction false} OrDisjoint(a: nat, b: nat, k: nat)
    requires b < Pow2(k)
    ensures Or(a * Pow2(k), b) == a * Pow2(k) + b
  {
    if k > 0 {
      var half := a * Pow2(k - 1);
      assert a * Pow2(k) == 2 * half;
      if half != 0 && b != 0 {
        assert (2 * half) / 2 == half && (2 * half) % 2 == 0;
        OrDisjoint(a, b / 2, k - 1);
      }
    }
  }

  /** A larger factor gives a product larger by at least the other factor. */
  lemma MulGrows(d: nat, x: nat, y: nat)
    ensures x > y ==> d * x >= d * y + d
  {
    if x > y {
      var e: nat := x - y - 1;
      assert x == y + 1 + e;
      assert d * x == d * y + d + d * e;
    }
  }

  /** Quotient and remainder are the only ones of their kind. */
  lemma DivModUnique(a: nat, d: nat, q: nat, r: nat)
    requires d > 0 && a == d * q + r && r < d
    ensures a / d == q && a % d == r
  {
    var q', r' := a / d, a % d;
    assert d * q' + r' == d * q + r;
    MulGrows(d, q', q);
    MulGrows(d, q, q');
  }

  /** Halving first, then dividing by `p`, is dividing by `2 * p`. */
  lemma ModOfDouble(a: nat, p: nat)
    requires p > 0
    ensures a % (2 * p) == 2 * ((a / 2) % p) + a % 2
    ensures a / (2 * p) == (a / 2) / p
  {
    var q, t := (a / 2) / p, (a / 2) % p;
    assert a == 2 * (a / 2) + a % 2;
    assert a / 2 == p * q + t;
    assert a == (2 * p) * q + (2 * t + a % 2);
    DivModUnique(a, 2 * p, q, 2 * t + a % 2);
  }

  /** A right shift divides by a power of two. */
  lemma {:induction false} ShrValue(x: nat, n: nat)
    ensures Shr(x, n) == x / Pow2(n)
  {
    if n > 0 {
      ShrValue(x / 2, n - 1);
      ModOfDouble(x, Pow2(n - 1));
    } else {
      assert Pow2(0) == 1;
    }
  }

  /** Masking with `k` one bits keeps the remainder modulo 2^k. */
  lemma {:induction false} AndLowMask(a: nat, k: nat)
    ensures And(a, Pow2(k) - 1) == a % Pow2(k)
  {
    if k > 0 && a != 0 {
      var p := Pow2(k - 1);
      var m := Pow2(k) - 1;
      assert m == 2 * (p - 1) + 1;
      assert m / 2 == p - 1 && m % 2 == 1;
      assert And(a, m) == 2 * And(a / 2, p - 1) + a % 2;
      AndLowMask(a / 2, k - 1);
      ModOfDouble(a, p);
    } else if a == 0 {
      DivModUnique(0, Pow2(k), 0, 0);
    } else {
      assert Pow2(k) == 1;
    }
  }

  /** Masking with the single bit 2^k tests bit `k`. */
  lemma {:induction false} AndBit(a: nat, k: nat)
    ensures And(a, Pow2(k)) != 0 <==> (a / Pow2(k)) % 2 == 1
  {
    if k > 0 && a != 0 {
      var p := Pow2(k - 1);
      var q := Pow2(k);
      assert q == 2 * p;
      assert q / 2 == p && q % 2 == 0;
      assert And(a, q) == 2 * And(a / 2, p);
      AndBit(a / 2, k - 1);
      ModOfDouble(a, p);
    } else if a == 0 {
      DivModUnique(0, Pow2(k), 0, 0);
    } else {
      assert Pow2(k) == 1;
      assert And(a, 1) == a % 2;
    }
  }
}
