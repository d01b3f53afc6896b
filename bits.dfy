/** Bitwise operations on non-negative integers, as the C++ decoder applies
    them to bytes after integer promotion, and the facts about them the
    decoder's correctness rests on. */
module Bits {

  /** 2 to the power k; `1 << k` for the shifts the decoder performs. */
  function Pow2(k: nat): (r: nat)
    ensures r >= 1
  {
    if k == 0 then 1 else 2 * Pow2(k - 1)
  }

  lemma {:induction false} Pow2Add(a: nat, b: nat)
    ensures Pow2(a + b) == Pow2(a) * Pow2(b)
  {
    if a > 0 {
      Pow2Add(a - 1, b);
      assert Pow2(a + b) == 2 * Pow2(a - 1 + b);
    }
  }

  /** Pow2Add with the sum named as the caller writes it. */
  lemma Pow2Split(a: nat, b: nat, c: nat)
    requires c == a + b
    ensures Pow2(c) == Pow2(a) * Pow2(b)
  {
    Pow2Add(a, b);
  }

  lemma Pow2Of8()
    ensures Pow2(7) == 0x80 && Pow2(8) == 0x100
  {
  }

  lemma Pow2Of32()
    ensures Pow2(32) == 0x1_0000_0000
  {
    Pow2Of8();
    Pow2Add(8, 8);
    Pow2Add(16, 16);
  }

  lemma Pow2Of64()
    ensures Pow2(8) == 0x100 && Pow2(64) == 0x1_0000_0000_0000_0000
  {
    Pow2Of8();
    Pow2Of32();
    Pow2Add(32, 32);
  }

  lemma Pow2Of56()
    ensures Pow2(56) == 0x100_0000_0000_0000
  {
    Pow2Of64();
    Pow2Split(56, 8, 64);
  }

  lemma {:induction false} Pow2Monotone(a: nat, b: nat)
    requires a <= b
    ensures Pow2(a) <= Pow2(b)
  {
    if b > a {
      Pow2Monotone(a, b - 1);
    }
  }

  /** `x >> s`. */
  function Shr(x: nat, s: nat): nat
  {
    DivNat(x, Pow2(s))
  }

  /** Division of a natural number by a positive one stays natural. */
  function DivNat(x: nat, d: nat): (q: nat)
    requires d >= 1
    ensures q == x / d
  {
    DivNonNeg(x, d);
    x / d
  }

  /** A value below b * d divided by d is below b. */
  lemma DivBelow(n: nat, d: nat, b: nat)
    requires d > 0 && n < b * d
    ensures n / d < b
  {
  }

  lemma DivNonNeg(x: int, d: int)
    requires x >= 0 && d >= 1
    ensures x / d >= 0
  {
  }

  /** Bitwise AND, `x & y`. */
  function BitAnd(x: nat, y: nat): (r: nat)
    ensures r <= x && r <= y
    decreases x
  {
    if x == 0 || y == 0 then 0
    else 2 * BitAnd(x / 2, y / 2) + (if x % 2 == 1 && y % 2 == 1 then 1 else 0)
  }

  /** Bitwise OR, `x | y`. */
  function BitOr(x: nat, y: nat): (r: nat)
    ensures x <= r <= x + y && y <= r
    decreases x
  {
    if x == 0 then y
    else if y == 0 then x
    else 2 * BitOr(x / 2, y / 2) + (if x % 2 == 1 || y % 2 == 1 then 1 else 0)
  }

  /** Halving and then dividing by p is dividing by P = 2p. */
  lemma DivDouble(x: nat, p: nat, P: nat)
    requires p >= 1 && P == 2 * p
    ensures x / 2 / p == x / P
    ensures x % P == 2 * (x / 2 % p) + x % 2
  {
    var q := x / 2 / p;
    var m := x / 2 % p;
    assert x == P * q + (2 * m + x % 2);
    assert 0 <= 2 * m + x % 2 < P;
    DivModUnique(x, P, q, 2 * m + x % 2);
  }

  lemma Twice(q: int, p: int, P: int)
    requires P == 2 * p
    ensures 2 * (q * p) == q * P
  {
  }

  lemma DivModUnique(x: int, d: int, q: int, r: int)
    requires d > 0 && 0 <= r < d && x == d * q + r
    ensures x / d == q && x % d == r
  {
    var q0, r0 := x / d, x % d;
    assert x == d * q0 + r0 && 0 <= r0 < d;
    var k := q - q0;
    assert d * k == r0 - r by {
      assert d * q - d * q0 == d * (q - q0);
    }
    if k >= 1 {
      assert false;
    } else if k <= -1 {
      assert false;
    }
  }

  /** Masking with k low one-bits keeps the value modulo 2^k:
      `x & 0x7f == x % 128`, `x & 0x3f == x % 64`. */
  lemma LowMask(x: nat, k: nat)
    ensures BitAnd(x, Pow2(k) - 1) == x % Pow2(k)
  {
    MaskLowBits(x, k);
    LowBitsMod(x, k);
  }

  /** The k low bits of x, read off one at a time. */
  function LowBits(x: nat, k: nat): nat
  {
    if k == 0 then 0 else 2 * LowBits(x / 2, k - 1) + x % 2
  }

  lemma {:induction false} MaskLowBits(x: nat, k: nat)
    ensures BitAnd(x, Pow2(k) - 1) == LowBits(x, k)
  {
    if k > 0 {
      var p := Pow2(k - 1);
      assert Pow2(k) - 1 == 2 * (p - 1) + 1;
      MaskLowBits(x / 2, k - 1);
      if x > 0 {
        BitAndOdd(x, Pow2(k) - 1, p - 1);
      }
    }
  }

  lemma {:induction false} LowBitsMod(x: nat, k: nat)
    ensures LowBits(x, k) == x % Pow2(k)
  {
    if k == 0 {
      assert Pow2(0) == 1;
      DivModUnique(x, 1, x, 0);
    } else {
      LowBitsMod(x / 2, k - 1);
      DivDouble(x, Pow2(k - 1), Pow2(k));
    }
  }

  /** `x & 2^k` is bit k of x, in place. */
  lemma {:induction false} SingleBit(x: nat, k: nat)
    ensures BitAnd(x, Pow2(k)) == x / Pow2(k) % 2 * Pow2(k)
  {
    if k == 0 {
      assert Pow2(0) == 1;
      DivModUnique(x, 1, x, 0);
    } else if x > 0 {
      var p, P := Pow2(k - 1), Pow2(k);
      assert P == 2 * p;
      DivModUnique(P, 2, p, 0);
      assert BitAnd(x, P) == 2 * BitAnd(x / 2, p);
      SingleBit(x / 2, k - 1);
      DivDouble(x, p, P);
      Twice(x / P % 2, p, P);
    } else {
      DivModUnique(0, Pow2(k), 0, 0);
    }
  }

  /** For a byte, `b & 0x80` is zero exactly when the high bit is clear. */
  lemma HighBit(b: nat)
    requires b < 256
    ensures BitAnd(b, 0x80) == 0 <==> b < 0x80
  {
    SingleBit(b, 7);
    Pow2Of8();
    if b < 0x80 {
      DivModUnique(b, 0x80, 0, b);
    } else {
      DivModUnique(b, 0x80, 1, b - 0x80);
    }
  }

  /** Masking with ones in bits u..w-1 clears the low u bits of a w-bit value
      and keeps the others. */
  lemma {:induction false} ClearLow(x: nat, w: nat, u: nat)
    requires u <= w && x < Pow2(w)
    decreases w, 1
    ensures Pow2(u) <= Pow2(w)
    ensures BitAnd(x, Pow2(w) - Pow2(u)) == x / Pow2(u) * Pow2(u)
  {
    Pow2Monotone(u, w);
    if u == 0 {
      ClearNone(x, w);
    } else if x == 0 {
      DivModUnique(0, Pow2(u), 0, 0);
    } else if u == w {
      DivModUnique(x, Pow2(w), 0, x);
    } else {
      ClearLowStep(x, w, u);
    }
  }

  lemma ClearNone(x: nat, w: nat)
    requires x < Pow2(w)
    ensures BitAnd(x, Pow2(w) - Pow2(0)) == x / Pow2(0) * Pow2(0)
  {
    LowMask(x, w);
    DivModUnique(x, Pow2(w), 0, x);
    assert Pow2(0) == 1;
    DivModUnique(x, 1, x, 0);
  }

  /** The recursive case of ClearLow: one bit off the bottom of both. */
  lemma {:induction false} ClearLowStep(x: nat, w: nat, u: nat)
    requires 0 < u < w && 0 < x < Pow2(w)
    decreases w, 0
    ensures Pow2(u) <= Pow2(w)
    ensures BitAnd(x, Pow2(w) - Pow2(u)) == x / Pow2(u) * Pow2(u)
  {
    Pow2Monotone(u, w);
    Pow2Monotone(u - 1, w - 1);
    var p, P := Pow2(u - 1), Pow2(u);
    assert P == 2 * p && Pow2(w) == 2 * Pow2(w - 1);
    assert x / 2 < Pow2(w - 1);
    ClearLow(x / 2, w - 1, u - 1);
    BitAndHalf(x, Pow2(w) - P, Pow2(w - 1) - p);
    DivDouble(x, p, P);
    Twice(x / P, p, P);
  }

  /** With an even mask, the lowest bit of x plays no part. */
  lemma BitAndHalf(x: nat, m: nat, h: nat)
    requires x > 0 && m == 2 * h
    ensures BitAnd(x, m) == 2 * BitAnd(x / 2, h)
  {
    DivModUnique(m, 2, h, 0);
  }

  /** With an odd mask, the lowest bit of x is kept. */
  lemma BitAndOdd(x: nat, m: nat, h: nat)
    requires x > 0 && m == 2 * h + 1
    ensures BitAnd(x, m) == 2 * BitAnd(x / 2, h) + x % 2
  {
    DivModUnique(m, 2, h, 1);
  }

  /** OR-ing a value into bits a shifted number cannot reach is addition:
      `(a << h) | b == a * 2^h + b` when b < 2^h. */
  lemma {:induction false} OrShifted(a: nat, h: nat, b: nat)
    requires b < Pow2(h)
    ensures BitOr(a * Pow2(h), b) == a * Pow2(h) + b
  {
    if h > 0 && a > 0 && b > 0 {
      assert a * Pow2(h) == 2 * (a * Pow2(h - 1));
      OrShifted(a, h - 1, b / 2);
    }
  }
}
