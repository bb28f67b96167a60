/** Bitwise operations on natural numbers, digit by digit, and what they mean as arithmetic. */
module Bits {
  const WORD: nat := 0x1_0000_0000_0000_0000

  type Word = x: nat | x < WORD

  function Pow2(k: nat): (r: nat)
    ensures r > 0
  {
    if k == 0 then 1 else 2 * Pow2(k - 1)
  }

  /** Bit `i` of `a`. */
  predicate Bit(a: nat, i: nat) {
    if i == 0 then a % 2 == 1 else Bit(a / 2, i - 1)
  }

  function And(a: nat, b: nat): nat {
    if a == 0 || b == 0 then 0 else 2 * And(a / 2, b / 2) + (if a % 2 == 1 && b % 2 == 1 then 1 else 0)
  }

  function Or(a: nat, b: nat): nat {
    if a == 0 then b else if b == 0 then a else
    2 * Or(a / 2, b / 2) + (if a % 2 == 1 || b % 2 == 1 then 1 else 0)
  }

  /** 64-bit complement and left shift. */
  function Not(a: Word): Word { WORD - 1 - a }

  function Shl(a: nat, k: nat): Word { a * Pow2(k) % WORD }

  function Shr(a: nat, k: nat): nat { if k == 0 then a else Shr(a / 2, k - 1) }

  // ---------------------------------------------------------------------------
  // Bit by bit
  // ---------------------------------------------------------------------------

  lemma {:induction false} ZeroBit(i: nat)
    ensures !Bit(0, i)
  {
    if i > 0 { ZeroBit(i - 1); }
  }

  lemma {:induction false} AndBit(a: nat, b: nat, i: nat)
    ensures Bit(And(a, b), i) == (Bit(a, i) && Bit(b, i))
  {
    if a == 0 || b == 0 {
      ZeroBit(i);
    } else if i > 0 {
      AndBit(a / 2, b / 2, i - 1);
    }
  }

  lemma {:induction false} OrBit(a: nat, b: nat, i: nat)
    ensures Bit(Or(a, b), i) == (Bit(a, i) || Bit(b, i))
  {
    if a == 0 || b == 0 {
      ZeroBit(i);
    } else if i > 0 {
      OrBit(a / 2, b / 2, i - 1);
    }
  }

  lemma {:induction false} PowBit(k: nat, i: nat)
    ensures Bit(Pow2(k), i) == (i == k)
  {
    if k == 0 {
      if i > 0 { ZeroBit(i - 1); }
    } else if i > 0 {
      PowBit(k - 1, i - 1);
    }
  }

  /** Complement within `n` digits. */
  lemma {:induction false} ComplementBit(a: nat, n: nat, i: nat)
    requires a < Pow2(n) && i < n
    ensures Bit(Pow2(n) - 1 - a, i) == !Bit(a, i)
  {
    if i > 0 {
      assert (Pow2(n) - 1 - a) / 2 == Pow2(n - 1) - 1 - a / 2;
      ComplementBit(a / 2, n - 1, i - 1);
    }
  }

  /** Numbers with the same digits are equal. */
  lemma {:induction false} SameBits(a: nat, b: nat, n: nat)
    requires a < Pow2(n) && b < Pow2(n)
    requires forall i: nat :: i < n ==> Bit(a, i) == Bit(b, i)
    ensures a == b
  {
    if n > 0 {
      assert Bit(a, 0) == Bit(b, 0);
      forall i: nat | i < n - 1 ensures Bit(a / 2, i) == Bit(b / 2, i) {
        assert Bit(a, i + 1) == Bit(b, i + 1);
      }
      SameBits(a / 2, b / 2, n - 1);
    }
  }

  lemma {:induction false} AndBound(a: nat, b: nat)
    ensures And(a, b) <= a && And(a, b) <= b
  {
    if a != 0 && b != 0 { AndBound(a / 2, b / 2); }
  }

  lemma {:induction false} OrBound(a: nat, b: nat, n: nat)
    requires a < Pow2(n) && b < Pow2(n)
    ensures Or(a, b) < Pow2(n)
  {
    if a != 0 && b != 0 { OrBound(a / 2, b / 2, n - 1); }
  }

  lemma {:induction false} OrCommutes(a: nat, b: nat)
    ensures Or(a, b) == Or(b, a)
  {
    if a != 0 && b != 0 { OrCommutes(a / 2, b / 2); }
  }

  lemma {:induction false} AndCommutes(a: nat, b: nat)
    ensures And(a, b) == And(b, a)
  {
    if a != 0 && b != 0 { AndCommutes(a / 2, b / 2); }
  }

  lemma AndParts(a: nat, b: nat)
    ensures And(a, b) / 2 == And(a / 2, b / 2)
    ensures And(a, b) % 2 == if a % 2 == 1 && b % 2 == 1 then 1 else 0
  {}

  lemma OrParts(a: nat, b: nat)
    ensures Or(a, b) / 2 == Or(a / 2, b / 2)
    ensures Or(a, b) % 2 == if a % 2 == 1 || b % 2 == 1 then 1 else 0
  {}

  lemma {:induction false} AndOverOr(a: nat, b: nat, m: nat)
    ensures And(Or(a, b), m) == Or(And(a, m), And(b, m))
  {
    if a != 0 && b != 0 && m != 0 {
      AndOverOr(a / 2, b / 2, m / 2);
      assert And(Or(a, b), m) == Or(And(a, m), And(b, m)) by {
        hide And, Or;
        OrParts(a, b);
        AndParts(Or(a, b), m);
        AndParts(a, m);
        AndParts(b, m);
        OrParts(And(a, m), And(b, m));
      }
    }
  }

  lemma {:induction false} AndAssociates(a: nat, b: nat, c: nat)
    ensures And(And(a, b), c) == And(a, And(b, c))
  {
    if a != 0 && b != 0 && c != 0 { AndAssociates(a / 2, b / 2, c / 2); }
  }

  // ---------------------------------------------------------------------------
  // Masks are remainders, disjoint sums are unions
  // ---------------------------------------------------------------------------

  /** Masking with 2^k - 1 takes the remainder by 2^k. */
  lemma {:induction false} LowMask(x: nat, k: nat)
    ensures And(x, Pow2(k) - 1) == x % Pow2(k)
  {
    if k == 0 {
    } else if x == 0 {
    } else {
      LowMask(x / 2, k - 1);
      HalfMod(x, Pow2(k - 1));
      assert (Pow2(k) - 1) / 2 == Pow2(k - 1) - 1;
    }
  }

  lemma HalfMod(x: nat, m: nat)
    requires m > 0
    ensures x % (2 * m) == 2 * (x / 2 % m) + x % 2
  {
    var q, r := x / 2 / m, x / 2 % m;
    assert x == 2 * (m * q + r) + x % 2;
    assert x == (2 * m) * q + (2 * r + x % 2) by { assert (2 * m) * q == 2 * (m * q); }
    DivModUnique(x, 2 * m, q, 2 * r + x % 2);
  }

  lemma DivModUnique(x: nat, d: nat, q: nat, r: nat)
    requires d > 0 && r < d && x == d * q + r
    ensures x / d == q && x % d == r
  {
    var q', r' := x / d, x % d;
    assert d * q' + r' == d * q + r;
    if q' < q {
      MulAtMost(d, q' + 1, q);
    } else if q' > q {
      MulAtMost(d, q + 1, q');
    }
  }

  lemma MulAtMost(d: nat, a: nat, b: nat)
    requires a <= b
    ensures d * a <= d * b
  {}

  /** A mask whose low `k` bits are clear ignores them. */
  lemma {:induction false} ShiftedMask(x: nat, m: nat, k: nat)
    ensures And(x, m * Pow2(k)) == And(Shr(x, k), m) * Pow2(k)
  {
    if k > 0 {
      var w, p := m * Pow2(k - 1), Pow2(k - 1);
      DoubleMask(x, w);
      ShiftedMask(x / 2, m, k - 1);
      Regroup(m, p);
      Regroup(And(Shr(x, k), m), p);
    }
  }

  lemma Regroup(m: nat, p: nat)
    ensures m * (2 * p) == 2 * (m * p)
  {}

  lemma DoubleMask(x: nat, w: nat)
    ensures And(x, 2 * w) == 2 * And(x / 2, w)
  {
    hide And;
    AndParts(x, 2 * w);
  }

  lemma HalfDiv(x: nat, m: nat)
    requires m > 0
    ensures x / (2 * m) == x / 2 / m
  {
    var q, r := x / 2 / m, x / 2 % m;
    assert x == (2 * m) * q + (2 * r + x % 2) by { assert (2 * m) * q == 2 * (m * q); }
    DivModUnique(x, 2 * m, q, 2 * r + x % 2);
  }

  /** A number below 2^k joins a multiple of 2^k by addition. */
  lemma {:induction false} JoinLow(a: nat, b: nat, k: nat)
    requires b < Pow2(k)
    ensures Or(a * Pow2(k), b) == a * Pow2(k) + b
  {
    if k > 0 && a != 0 && b != 0 {
      Regroup(a, Pow2(k - 1));
      JoinLow(a, b / 2, k - 1);
    }
  }

  /** Testing one bit through a mask. */
  lemma TestBit(x: nat, i: nat)
    ensures And(x, Pow2(i)) == (if Bit(x, i) then Pow2(i) else 0)
    ensures And(x, Pow2(i)) != 0 <==> Bit(x, i)
  {}

  lemma {:induction false} BitIsDigit(x: nat, i: nat)
    ensures Bit(x, i) <==> Shr(x, i) % 2 == 1
  {
    if i > 0 { BitIsDigit(x / 2, i - 1); }
  }

  /** Shifting right divides by a power of two. */
  lemma {:induction false} ShrDivides(x: nat, k: nat)
    ensures Shr(x, k) == x / Pow2(k)
  {
    if k > 0 {
      HalfDiv(x, Pow2(k - 1));
      ShrDivides(x / 2, k - 1);
    }
  }

  lemma {:induction false} PowBelow(i: nat, n: nat)
    requires i < n
    ensures Pow2(i) < Pow2(n)
  {
    if i < n - 1 { PowBelow(i, n - 1); }
  }

  /** A masked number and its complement add up. */
  lemma {:induction false} MaskParts(x: nat, m: nat, n: nat)
    requires x < Pow2(n) && m < Pow2(n)
    ensures And(x, m) + And(x, Pow2(n) - 1 - m) == x
  {
    if n > 0 {
      MaskParts(x / 2, m / 2, n - 1);
      assert And(x, m) + And(x, Pow2(n) - 1 - m) == x by {
        hide And;
        AndParts(x, m);
        AndParts(x, Pow2(n) - 1 - m);
        assert (Pow2(n) - 1 - m) / 2 == Pow2(n - 1) - 1 - m / 2;
      }
    }
  }
}
