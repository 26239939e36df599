/** Unsigned bit operations (`>>` and `&` on `u32`/`usize`), defined arithmetically on
    naturals so that statements about individual bit positions can be proved by induction. */
module Bits {

  /** 2 to the power n. */
  function Pow2(n: nat): (r: nat)
    ensures r >= 1
  {
    if n == 0 then 1 else 2 * Pow2(n - 1)
  }

  /** The powers of two used as image widths and masks, unfolded one doubling at a time. */
  lemma Pow2Table()
    ensures Pow2(2) == 4 && Pow2(10) == 0x400 && Pow2(11) == 0x800 && Pow2(14) == 0x4000
    ensures Pow2(17) == 0x2_0000 && Pow2(18) == 0x4_0000
  {
    assert Pow2(4) == 16;
    assert Pow2(8) == 0x100;
    assert Pow2(10) == 0x400;
    assert Pow2(12) == 0x1000;
    assert Pow2(14) == 0x4000;
    assert Pow2(16) == 0x1_0000;
  }

  /** Logical right shift `x >> s`: one halving per position, so it never grows. */
  function Shr(x: nat, s: nat): (r: nat)
    ensures r <= x
  {
    if s == 0 then x else Shr(x / 2, s - 1)
  }

  /** The shift is division by 2^s. */
  lemma {:induction false} ShrIsDiv(x: nat, s: nat)
    ensures Shr(x, s) == x / Pow2(s)
  {
    if s > 0 {
      ShrIsDiv(x / 2, s - 1);
      DivOfDouble(x, Pow2(s - 1));
    }
  }

  /** Bit k of x is set (k = 0 is the least significant bit). */
  predicate Bit(x: nat, k: nat)
  {
    Shr(x, k) % 2 == 1
  }

  /** Bitwise AND `x & y`, one bit position at a time; it is at most either operand. */
  function And(x: nat, y: nat): (r: nat)
    ensures r <= x && r <= y
    decreases x
  {
    if x == 0 || y == 0 then 0
    else 2 * And(x / 2, y / 2) + (if x % 2 == 1 && y % 2 == 1 then 1 else 0)
  }

  lemma {:induction false} ShrOfZero(s: nat)
    ensures Shr(0, s) == 0
  {
    if s > 0 {
      ShrOfZero(s - 1);
    }
  }

  /** Shifting twice is shifting by the sum. */
  lemma {:induction false} ShrShr(x: nat, a: nat, b: nat)
    ensures Shr(Shr(x, a), b) == Shr(x, a + b)
    decreases a
  {
    if a > 0 {
      ShrShr(x / 2, a - 1, b);
    }
  }

  /** Bit c of `x >> s` is bit s + c of x. */
  lemma BitOfShr(x: nat, s: nat, c: nat)
    ensures Bit(Shr(x, s), c) == Bit(x, s + c)
  {
    ShrShr(x, s, c);
  }

  /** A value below 2^w has no bit at or above position w. */
  lemma {:induction false} ShrBelowPow2(x: nat, w: nat)
    requires x < Pow2(w)
    ensures Shr(x, w) == 0
  {
    if w > 0 {
      ShrBelowPow2(x / 2, w - 1);
    }
  }

  /** If `x >> w` is zero, no bit at or above w is set. */
  lemma NoBitAbove(x: nat, w: nat, k: nat)
    requires Shr(x, w) == 0 && k >= w
    ensures !Bit(x, k)
  {
    ShrShr(x, w, k - w);
    ShrOfZero(k - w);
  }

  lemma {:induction false} AndCommutes(x: nat, y: nat)
    ensures And(x, y) == And(y, x)
    decreases x
  {
    if x != 0 && y != 0 {
      AndCommutes(x / 2, y / 2);
    }
  }

  /** `x & 1` is the lowest bit of x. */
  lemma AndOne(x: nat)
    ensures And(x, 1) == x % 2
  {
  }

  /** `x & y` is non-zero exactly when some bit position is set in both. */
  lemma {:induction false} AndNonZero(x: nat, y: nat)
    ensures And(x, y) != 0 <==> exists k: nat :: Bit(x, k) && Bit(y, k)
    decreases x
  {
    if x == 0 || y == 0 {
      forall k: nat ensures !(Bit(x, k) && Bit(y, k)) {
        ShrOfZero(k);
      }
    } else {
      AndNonZero(x / 2, y / 2);
      if And(x, y) != 0 {
        if x % 2 == 1 && y % 2 == 1 {
          assert Bit(x, 0) && Bit(y, 0);
        } else {
          var k: nat :| Bit(x / 2, k) && Bit(y / 2, k);
          assert Bit(x, k + 1) && Bit(y, k + 1);
        }
      } else {
        forall k: nat ensures !(Bit(x, k) && Bit(y, k)) {
          if k > 0 {
            assert Bit(x, k) == Bit(x / 2, k - 1);
            assert Bit(y, k) == Bit(y / 2, k - 1);
          }
        }
      }
    }
  }

  /** A common bit of `(x >> s) & y`, for x below 2^wx and y below 2^wy, is a bit c below wy
      set in y whose position s + c in x lies below wx. */
  lemma AndShrCommonBit(x: nat, y: nat, s: nat, wx: nat, wy: nat)
    requires x < Pow2(wx) && y < Pow2(wy) && And(Shr(x, s), y) != 0
    ensures exists c: nat :: c < wy && s + c < wx && Bit(x, s + c) && Bit(y, c)
  {
    ShrBelowPow2(x, wx);
    ShrBelowPow2(y, wy);
    AndNonZero(Shr(x, s), y);
    var c: nat :| Bit(Shr(x, s), c) && Bit(y, c);
    BitOfShr(x, s, c);
    if s + c >= wx { NoBitAbove(x, wx, s + c); }
    if c >= wy { NoBitAbove(y, wy, c); }
  }

  /** Conversely, bit s + c of x and bit c of y make `(x >> s) & y` non-zero. */
  lemma AndShrFromCommonBit(x: nat, y: nat, s: nat, c: nat)
    requires Bit(x, s + c) && Bit(y, c)
    ensures And(Shr(x, s), y) != 0
  {
    BitOfShr(x, s, c);
    AndNonZero(Shr(x, s), y);
  }

  /** Masking with 2^k - 1 keeps the k low bits: `x & (2^k - 1) == x % 2^k`. */
  lemma {:induction false} AndLowMask(x: nat, k: nat)
    ensures And(x, Pow2(k) - 1) == x % Pow2(k)
    decreases k
  {
    if k == 0 {
      assert Pow2(k) - 1 == 0;
    } else if x != 0 {
      var p := Pow2(k - 1);
      assert Pow2(k) == 2 * p;
      AndOddMask(x, p);
      AndLowMask(x / 2, k - 1);
      assert And(x / 2, p - 1) == (x / 2) % p;
      ModOfDouble(x, p);
      assert x % Pow2(k) == x % (2 * p);
    }
  }

  /** One step of masking with the odd mask 2p - 1: the low bit is kept, the rest is masked
      with p - 1. */
  lemma AndOddMask(x: nat, p: nat)
    requires x != 0 && p >= 1
    ensures And(x, 2 * p - 1) == 2 * And(x / 2, p - 1) + x % 2
  {
    DivModOfDecomposition(2 * p - 1, 2, p - 1, 1);
  }

  lemma ModOfDouble(x: nat, p: nat)
    requires p >= 1
    ensures x % (2 * p) == 2 * ((x / 2) % p) + x % 2
  {
    DoubleDecomposition(x, p);
  }

  /** Dividing by 2p is halving and then dividing by p. */
  lemma DivOfDouble(x: nat, p: nat)
    requires p >= 1
    ensures x / (2 * p) == (x / 2) / p
  {
    DoubleDecomposition(x, p);
  }

  /** x splits over 2p into the quotient and remainder of x / 2 over p and the low bit of x. */
  lemma DoubleDecomposition(x: nat, p: nat)
    requires p >= 1
    ensures x / (2 * p) == (x / 2) / p
    ensures x % (2 * p) == 2 * ((x / 2) % p) + x % 2
  {
    var q, r := (x / 2) / p, (x / 2) % p;
    assert x / 2 == p * q + r;
    assert x == (2 * p) * q + (2 * r + x % 2) by {
      assert x == 2 * (x / 2) + x % 2;
      assert 2 * (p * q) == (2 * p) * q;
    }
    DivModOfDecomposition(x, 2 * p, q, 2 * r + x % 2);
  }

  /** Quotient and remainder are determined by any decomposition x == d * q + r with 0 <= r < d. */
  lemma DivModOfDecomposition(x: nat, d: nat, q: nat, r: nat)
    requires 0 <= r < d && x == d * q + r
    ensures x / d == q && x % d == r
  {
    var q', r' := x / d, x % d;
    assert x == d * q' + r';
    assert d * (q - q') == r' - r by {
      MulSub(d, q, q');
    }
    if q - q' >= 1 {
      MulAtLeast(d, q - q');
    } else if q' - q >= 1 {
      MulAtLeast(d, q' - q);
      MulSub(d, q', q);
    }
  }

  lemma MulSub(d: int, a: int, b: int)
    ensures d * (a - b) == d * a - d * b
  {
  }

  lemma {:induction false} MulAtLeast(d: nat, n: int)
    requires n >= 1
    ensures d * n >= d
    decreases n
  {
    if n > 1 {
      MulAtLeast(d, n - 1);
      assert d * n == d * (n - 1) + d;
    }
  }
}
