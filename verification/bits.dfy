/**
 * Bit-level arithmetic on unbounded naturals.
 *
 * The firmware manipulates registers and addresses with C's `&`, `|`, `~`,
 * shifts and truncating casts. This module gives those operators a meaning
 * on `nat` (so that widths are explicit at every use) and proves the facts
 * the rest of the model relies on: masking with 2^n-1 is a remainder,
 * masking with a band of high bits clears the low ones, OR of disjoint
 * values is a sum, and a single bit can be tested through AND.
 */
module Bits {

  /** 2^n */
  function Pow2(n: nat): (r: nat)
    ensures r >= 1
  {
    if n == 0 then 1 else 2 * Pow2(n - 1)
  }

  /** The widths the firmware uses, as numbers. */
  lemma Pow2Values()
    ensures Pow2(4) == 0x10 && Pow2(8) == 0x100 && Pow2(10) == 0x400 && Pow2(16) == 0x1_0000
    ensures Pow2(32) == 0x1_0000_0000 && Pow2(64) == 0x1_0000_0000_0000_0000
  {
    Pow2Small();
    Pow2Wide();
  }

  lemma Pow2Small()
    ensures Pow2(4) == 0x10 && Pow2(8) == 0x100 && Pow2(10) == 0x400 && Pow2(16) == 0x1_0000
  {
    assert Pow2(2) == 4;
    assert Pow2(4) == 0x10;
    Pow2Add(4, 4);
    assert Pow2(10) == 0x400 by { Pow2Add(8, 2); }
    assert Pow2(16) == 0x1_0000 by { Pow2Add(8, 8); }
  }

  lemma Pow2Wide()
    requires Pow2(16) == 0x1_0000
    ensures Pow2(32) == 0x1_0000_0000 && Pow2(64) == 0x1_0000_0000_0000_0000
  {
    Pow2Add(16, 16);
    Pow2Add(32, 32);
  }

  /** An unsigned integer that fits in `width` bits. */
  predicate Fits(x: int, width: nat)
  {
    0 <= x < Pow2(width)
  }

  /** A C cast to an unsigned type of `width` bits: keep the low bits. */
  function Trunc(x: int, width: nat): (r: nat)
    ensures Fits(r, width)
  {
    x % Pow2(width)
  }

  /** Bitwise AND. */
  function And(a: nat, b: nat): nat
  {
    if a == 0 || b == 0 then 0
    else 2 * And(a / 2, b / 2) + (if a % 2 == 1 && b % 2 == 1 then 1 else 0)
  }

  /** Bitwise inclusive OR. */
  function Or(a: nat, b: nat): nat
  {
    if a == 0 then b
    else if b == 0 then a
    else 2 * Or(a / 2, b / 2) + (if a % 2 == 1 || b % 2 == 1 then 1 else 0)
  }

  /** Bitwise complement in a register of `width` bits. */
  function Not(x: nat, width: nat): (r: nat)
    requires Fits(x, width)
    ensures Fits(r, width) && x + r == Pow2(width) - 1
  {
    Pow2(width) - 1 - x
  }

  /** Bit `k` of `x` is set. */
  predicate Bit(x: nat, k: nat)
  {
    if k == 0 then x % 2 == 1 else Bit(x / 2, k - 1)
  }

  /** x is a power of two. */
  predicate IsPow2(x: nat)
  {
    if x <= 1 then x == 1 else x % 2 == 0 && IsPow2(x / 2)
  }

  /** The exponent of a power of two. */
  function Log2(x: nat): (n: nat)
    requires IsPow2(x)
    ensures Pow2(n) == x
  {
    if x == 1 then 0 else 1 + Log2(x / 2)
  }

  /**
   * A mask of the form 2^n - 1, as PCI alignments are: AND with it is a
   * remainder.
   */
  lemma AndMaskMod(a: nat, m: nat)
    requires IsPow2(m + 1)
    ensures And(a, m) == a % (m + 1)
  {
    AndLowMask(a, Log2(m + 1));
  }

  lemma {:induction false} Pow2IsPow2(n: nat)
    ensures IsPow2(Pow2(n))
  {
    if n > 0 {
      Pow2IsPow2(n - 1);
      assert Pow2(n) / 2 == Pow2(n - 1);
    }
  }

  // ---------------------------------------------------------------------
  // Arithmetic helpers

  lemma MulAtLeast(d: nat, k: nat)
    requires k >= 1
    ensures d * k >= d
  {
    if k > 1 {
      MulAtLeast(d, k - 1);
      assert d * k == d * (k - 1) + d;
    }
  }

  lemma ProductSmall(d: int, k: int)
    requires d > 0 && -d < d * k < d
    ensures k == 0
  {
    assert d * -k == -(d * k);
    if k >= 1 {
      MulAtLeast(d, k);
    } else if k <= -1 {
      MulAtLeast(d, -k);
    }
  }

  /** A product with a positive factor is positive only when the other factor is. */
  lemma PositiveFactor(d: int, k: int)
    requires d > 0 && d * k > 0
    ensures k > 0
  {
  }

  /** Division by a positive number keeps the order. */
  lemma DivMono(x: nat, y: nat, d: nat)
    requires d > 0 && x <= y
    ensures x / d <= y / d
  {
    var qx, qy := x / d, y / d;
    assert d * (qy + 1 - qx) == (d * qy + d) - d * qx;
    PositiveFactor(d, qy + 1 - qx);
  }

  lemma DivModUnique(x: int, d: int, q: int, r: int)
    requires d > 0 && 0 <= r < d && x == d * q + r
    ensures x / d == q && x % d == r
  {
    var q', r' := x / d, x % d;
    assert d * q - d * q' == d * (q - q');
    ProductSmall(d, q - q');
  }

  lemma Pow2Add(a: nat, b: nat)
    ensures Pow2(a + b) == Pow2(a) * Pow2(b)
  {
    if a > 0 {
      Pow2Add(a - 1, b);
    }
  }

  lemma Pow2Mono(a: nat, b: nat)
    requires a <= b
    ensures Pow2(a) <= Pow2(b)
  {
    if a < b {
      Pow2Mono(a, b - 1);
    }
  }

  /** x mod 2P splits into the low bit and (x / 2) mod P. */
  lemma ModDouble(x: nat, p: nat)
    requires p > 0
    ensures x % (2 * p) == 2 * ((x / 2) % p) + x % 2
  {
    var q := (x / 2) / p;
    var s := (x / 2) % p;
    assert x / 2 == p * q + s;
    assert x == (2 * p) * q + (2 * s + x % 2);
    DivModUnique(x, 2 * p, q, 2 * s + x % 2);
  }

  // ---------------------------------------------------------------------
  // Facts about AND / OR

  lemma AndBound(a: nat, b: nat)
    ensures And(a, b) <= a && And(a, b) <= b
  {
    if a != 0 && b != 0 {
      AndBound(a / 2, b / 2);
    }
  }

  lemma AndComm(a: nat, b: nat)
    ensures And(a, b) == And(b, a)
  {
    if a != 0 && b != 0 {
      AndComm(a / 2, b / 2);
    }
  }

  /** Masking with 2^n - 1 keeps the n low bits: it is a remainder. */
  lemma {:induction false} AndLowMask(x: nat, n: nat)
    ensures And(x, Pow2(n) - 1) == x % Pow2(n)
  {
    if n == 0 {
      assert And(x, 0) == 0;
    } else if x == 0 {
      assert And(0, Pow2(n) - 1) == 0;
    } else {
      var p := Pow2(n - 1);
      var mask := Pow2(n) - 1;
      assert mask == 2 * p - 1;
      DivModUnique(mask, 2, p - 1, 1);
      AndLowMask(x / 2, n - 1);
      assert And(x, mask) == 2 * And(x / 2, mask / 2) + x % 2;
      ModDouble(x, p);
      assert x % Pow2(n) == x % (2 * p);
      assert And(x, mask) == x % Pow2(n);
    }
  }

  /**
   * Masking with the bits n..m-1 (mask = 2^m - 2^n) clears the low n bits of
   * x mod 2^m.
   */
  lemma {:induction false} AndBandMask(x: nat, n: nat, m: nat, mask: nat)
    requires n <= m && mask + Pow2(n) == Pow2(m)
    ensures And(x, mask) == x % Pow2(m) - x % Pow2(n)
  {
    if n == 0 {
      AndLowMask(x, m);
    } else if x == 0 || mask == 0 {
      if mask == 0 && x != 0 {
        assert m == n by {
          if n < m {
            Pow2Mono(n + 1, m);
          }
        }
      }
    } else {
      assert mask / 2 + Pow2(n - 1) == Pow2(m - 1);
      assert mask % 2 == 0;
      AndBandMask(x / 2, n - 1, m - 1, mask / 2);
      ModDouble(x, Pow2(m - 1));
      ModDouble(x, Pow2(n - 1));
    }
  }

  /** AND with a single bit tests that bit. */
  lemma {:induction false} AndPow2IsBit(x: nat, k: nat)
    ensures And(x, Pow2(k)) != 0 <==> Bit(x, k)
    ensures And(x, Pow2(k)) == 0 || And(x, Pow2(k)) == Pow2(k)
  {
    if x == 0 {
      BitZero(k);
    } else if k == 0 {
    } else {
      assert Pow2(k) % 2 == 0 && Pow2(k) / 2 == Pow2(k - 1);
      AndPow2IsBit(x / 2, k - 1);
    }
  }

  lemma {:induction false} BitZero(k: nat)
    ensures !Bit(0, k)
  {
    if k > 0 {
      BitZero(k - 1);
    }
  }

  /** A bit of an OR is set iff it is set in either operand. */
  lemma {:induction false} BitOr(a: nat, b: nat, k: nat)
    ensures Bit(Or(a, b), k) <==> Bit(a, k) || Bit(b, k)
  {
    if a == 0 {
      BitZero(k);
    } else if b == 0 {
      BitZero(k);
    } else {
      var low := if a % 2 == 1 || b % 2 == 1 then 1 else 0;
      assert Or(a, b) == 2 * Or(a / 2, b / 2) + low;
      DivModUnique(Or(a, b), 2, Or(a / 2, b / 2), low);
      if k > 0 {
        BitOr(a / 2, b / 2, k - 1);
      }
    }
  }

  /** 2^j has exactly bit j set. */
  lemma {:induction false} BitPow2(j: nat, k: nat)
    ensures Bit(Pow2(j), k) <==> j == k
  {
    if j == 0 {
      if k > 0 {
        BitZero(k - 1);
      }
    } else if k > 0 {
      BitPow2(j - 1, k - 1);
    }
  }

  /** OR of two values with no common bit is their sum. */
  lemma {:induction false} OrDisjoint(a: nat, b: nat)
    requires And(a, b) == 0
    ensures Or(a, b) == a + b
  {
    if a != 0 && b != 0 {
      assert !(a % 2 == 1 && b % 2 == 1);
      OrDisjoint(a / 2, b / 2);
    }
  }

  /** A value below 2^n has no bit in common with a multiple of 2^n. */
  lemma {:induction false} AndLowHigh(lo: nat, hi: nat, n: nat)
    requires lo < Pow2(n) && hi % Pow2(n) == 0
    ensures And(lo, hi) == 0
  {
    if lo == 0 || hi == 0 {
    } else {
      assert n > 0;
      ModDouble(hi, Pow2(n - 1));
      AndLowHigh(lo / 2, hi / 2, n - 1);
    }
  }

  /** A bit of an AND is set iff it is set in both operands. */
  lemma {:induction false} BitAnd(a: nat, b: nat, k: nat)
    ensures Bit(And(a, b), k) <==> Bit(a, k) && Bit(b, k)
  {
    if a == 0 || b == 0 {
      BitZero(k);
    } else if k > 0 {
      BitAnd(a / 2, b / 2, k - 1);
    }
  }

  /** Bit k of the complement in a register of `width` bits is the flipped bit. */
  lemma {:induction false} BitNot(x: nat, width: nat, k: nat)
    requires Fits(x, width) && k < width
    ensures Bit(Not(x, width), k) <==> !Bit(x, k)
  {
    assert Pow2(width) == 2 * Pow2(width - 1);
    var q := x / 2;
    assert Not(x, width) == 2 * (Pow2(width - 1) - 1 - q) + (1 - x % 2);
    if k > 0 {
      assert Not(x, width) / 2 == Not(q, width - 1);
      BitNot(q, width - 1, k - 1);
    }
  }

  /** Truncating to `width` bits keeps every bit below `width`. */
  lemma {:induction false} BitTrunc(x: nat, width: nat, k: nat)
    requires k < width
    ensures Bit(Trunc(x, width), k) <==> Bit(x, k)
  {
    ModDouble(x, Pow2(width - 1));
    if k > 0 {
      assert Trunc(x, width) / 2 == Trunc(x / 2, width - 1);
      BitTrunc(x / 2, width - 1, k - 1);
    }
  }

  lemma Pow2Split(n: nat, m: nat)
    requires n <= m
    ensures Pow2(m) == Pow2(n) * Pow2(m - n)
  {
    if n > 0 {
      Pow2Split(n - 1, m - 1);
    }
  }

  lemma FieldArith(x: nat, pn: nat, pk: nat, pm: nat)
    requires pn > 0 && pk > 0 && pm == pn * pk
    ensures ((x / pn) % pk) * pn == x % pm - x % pn
  {
    var q, lo := x / pn, x % pn;
    var u, t := q / pk, q % pk;
    Recompose(x, pn, pk, q, lo, u, t);
    DivModUnique(x, pn * pk, u, t * pn + lo);
  }

  lemma Recompose(x: int, pn: int, pk: int, q: int, lo: int, u: int, t: int)
    requires pn > 0 && pk > 0 && 0 <= lo < pn && 0 <= t < pk
    requires x == pn * q + lo && q == pk * u + t
    ensures x == (pn * pk) * u + (t * pn + lo) && t * pn + lo < pn * pk
  {
    assert pn * q == (pn * pk) * u + t * pn;
    assert t * pn <= (pk - 1) * pn;
  }
}
