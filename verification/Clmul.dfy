/** Carry-less multiplication: three loops, one 128-bit product. */
module Clmul {
  import opened Words

  // ---- Shifts on naturals, one bit at a time ----

  /** `x >> k` */
  function Shr(x: nat, k: nat): (r: nat)
    ensures r <= x
  {
    if k == 0 then x else Shr(x / 2, k - 1)
  }

  /** `x << k`, losing nothing. */
  function Shl(x: nat, k: nat): nat {
    if k == 0 then x else 2 * Shl(x, k - 1)
  }

  /** The low `k` bits of `x`. */
  function Low(x: nat, k: nat): nat {
    if k == 0 then 0 else 2 * Low(x / 2, k - 1) + x % 2
  }

  lemma {:induction false} LowBound(x: nat, k: nat)
    ensures Low(x, k) < Pow2(k)
  {
    if k > 0 {
      LowBound(x / 2, k - 1);
    }
  }

  /** The low 64 bits: what a 64-bit word keeps of `x`. */
  function Truncated(x: nat): u64 {
    Pow2Of64();
    LowBound(x, 64);
    Low(x, 64)
  }

  /** Shifting and masking by `k` are quotient and remainder by 2^k. */
  lemma {:induction false} ShiftMeaning(x: nat, k: nat)
    ensures x == Shr(x, k) * Pow2(k) + Low(x, k)
  {
    if k > 0 {
      ShiftMeaning(x / 2, k - 1);
      assert Shr(x, k) * Pow2(k) == 2 * (Shr(x / 2, k - 1) * Pow2(k - 1));
    }
  }

  lemma {:induction false} ShrTwice(x: nat, j: nat, k: nat)
    ensures Shr(Shr(x, j), k) == Shr(x, j + k)
  {
    if j > 0 {
      ShrTwice(x / 2, j - 1, k);
    }
  }

  lemma {:induction false} ShiftPast(a: nat, i: nat, k: nat)
    requires i <= k
    ensures Shr(Shl(a, i), k) == Shr(a, k - i)
  {
    if i > 0 {
      ShiftPast(a, i - 1, k - 1);
    }
  }

  lemma XorHalf(x: nat, y: nat)
    ensures Xor(x, y) / 2 == Xor(x / 2, y / 2) && Xor(x, y) % 2 == if x % 2 == y % 2 then 0 else 1
  {
  }

  lemma XorOfDoubles(x: nat, i: nat, y: nat, j: nat)
    requires i < 2 && j < 2
    ensures Xor(2 * x + i, 2 * y + j) == 2 * Xor(x, y) + (if i == j then 0 else 1)
  {
    assert (2 * x + i) / 2 == x && (2 * y + j) / 2 == y;
    if 2 * x + i == 0 && 2 * y + j == 0 {
      assert Xor(0, 0) == 0;
    }
  }

  lemma {:induction false} XorShr(x: nat, y: nat, k: nat)
    ensures Shr(Xor(x, y), k) == Xor(Shr(x, k), Shr(y, k))
  {
    if k > 0 {
      XorHalf(x, y);
      XorShr(x / 2, y / 2, k - 1);
    }
  }

  lemma {:induction false} XorLow(x: nat, y: nat, k: nat)
    ensures Low(Xor(x, y), k) == Xor(Low(x, k), Low(y, k))
  {
    if k == 0 {
      assert Xor(0, 0) == 0;
    } else {
      XorHalf(x, y);
      XorLow(x / 2, y / 2, k - 1);
      XorOfDoubles(Low(x / 2, k - 1), x % 2, Low(y / 2, k - 1), y % 2);
    }
  }

  lemma {:induction false} XorZero(x: nat)
    ensures Xor(x, 0) == x
  {
    if x > 0 {
      XorZero(x / 2);
    }
  }

  // ---- The product ----

  predicate BitSet(b: nat, i: nat) {
    Shr(b, i) % 2 == 1
  }

  /** The copy of `a` that bit `i` of `b` contributes. */
  function Term(a: nat, b: nat, i: nat): nat {
    if BitSet(b, i) then Shl(a, i) else 0
  }

  /** The product of the polynomials over GF(2) whose coefficients are the bits of `a` and the low
      `n` bits of `b`. */
  function Product(a: nat, b: nat, n: nat): nat {
    if n == 0 then 0 else Xor(Product(a, b, n - 1), Term(a, b, n - 1))
  }

  lemma {:induction false} ShlBound(a: nat, i: nat, n: nat)
    requires a < Pow2(n)
    ensures Shl(a, i) < Pow2(n + i)
  {
    if i > 0 {
      ShlBound(a, i - 1, n);
    }
  }

  lemma {:induction false} Pow2Mono(m: nat, n: nat)
    requires m <= n
    ensures Pow2(m) <= Pow2(n)
    decreases n
  {
    if m < n {
      Pow2Mono(m, n - 1);
    }
  }

  /** An `n`-bit multiplier gives at most `63 + n` bits: the carry-less product of two words has
      127 bits, not 128. */
  lemma {:induction false} ProductBound(a: u64, b: u64, n: nat)
    requires 0 < n
    ensures Product(a, b, n) < Pow2(63 + n)
  {
    Pow2Of64();
    ShlBound(a, n - 1, 64);
    if n > 1 {
      ProductBound(a, b, n - 1);
    }
    Pow2Mono(63 + n - 1, 63 + n);
    XorBound(Product(a, b, n - 1), Term(a, b, n - 1), 63 + n);
  }

  // ---- The loops ----

  /** `clmul`: bits 63..0. */
  method CarrylessMul(a: u64, b: u64) returns (x: u64)
    ensures x == Low(Product(a, b, 64), 64)
  {
    LowOfZero(64);
    x := 0;
    for i := 0 to 64
      invariant x == Low(Product(a, b, i), 64)
    {
      LowStep(a, b, i, x);
      if Shr(b, i) % 2 != 0 {
        x := Xor(x, Truncated(Shl(a, i)));
      }
    }
  }

  lemma LowStep(a: u64, b: u64, i: nat, x: u64)
    requires x == Low(Product(a, b, i), 64)
    ensures Low(Product(a, b, i + 1), 64) == if BitSet(b, i) then Xor(x, Truncated(Shl(a, i))) else x
    ensures Xor(x, Truncated(Shl(a, i))) < 0x1_0000_0000_0000_0000
  {
    Pow2Of64();
    XorLow(Product(a, b, i), Term(a, b, i), 64);
    XorBound(x, Truncated(Shl(a, i)), 64);
    XorZero(x);
    LowOfZero(64);
  }

  lemma {:induction false} LowOfZero(k: nat)
    ensures Low(0, k) == 0 && Shr(0, k) == 0
  {
    if k > 0 {
      LowOfZero(k - 1);
    }
  }

  /** `clmulh`: bits 127..64. The loop starts at 1, since bit 0 of `b` leaves `a` below bit 64. */
  method CarrylessMulHigh(a: u64, b: u64) returns (x: u64)
    ensures x == Shr(Product(a, b, 64), 64)
  {
    HighStep(a, b, 0, 64, 0);
    NothingAbove(a);
    x := 0;
    for i := 1 to 64
      invariant x == Shr(Product(a, b, i), 64)
    {
      HighStep(a, b, i, 64, x);
      if Shr(b, i) % 2 != 0 {
        x := Xor(x, Shr(a, 64 - i));
      }
    }
  }

  lemma NothingAbove(a: u64)
    ensures Shr(a, 64) == 0
  {
    Pow2Of64();
    ShiftMeaning(a, 64);
  }

  /** `clmulr`: bits 126..63. */
  method CarrylessMulReversed(a: u64, b: u64) returns (x: u64)
    ensures x == Shr(Product(a, b, 64), 63)
  {
    x := 0;
    for i := 0 to 64
      invariant x == Shr(Product(a, b, i), 63)
    {
      HighStep(a, b, i, 63, x);
      if Shr(b, i) % 2 != 0 {
        x := Xor(x, Shr(a, 63 - i));
      }
    }
  }

  lemma HighStep(a: u64, b: u64, i: nat, k: nat, x: u64)
    requires i <= k && x == Shr(Product(a, b, i), k)
    ensures Shr(Product(a, b, i + 1), k) == if BitSet(b, i) then Xor(x, Shr(a, k - i)) else x
    ensures Xor(x, Shr(a, k - i)) < 0x1_0000_0000_0000_0000
  {
    Pow2Of64();
    XorShr(Product(a, b, i), Term(a, b, i), k);
    ShiftPast(a, i, k);
    XorBound(x, Shr(a, k - i), 64);
    XorZero(x);
    LowOfZero(k);
  }

  /** The three results are windows on one product of at most 127 bits: the low word, the high
      word, and the word one bit below the high one, which is `(high << 1) | (low >> 63)`. */
  lemma Windows(a: u64, b: u64)
    ensures var p := Product(a, b, 64);
            var low, high, reversed := Low(p, 64), Shr(p, 64), Shr(p, 63);
            && p == high * 0x1_0000_0000_0000_0000 + low
            && high < 0x8000_0000_0000_0000
            && reversed == 2 * high + Shr(low, 63)
  {
    var p := Product(a, b, 64);
    Pow2Of64();
    ShiftMeaning(p, 64);
    LowBound(p, 64);
    ProductBound(a, b, 64);
    Pow2Add(64, 63);
    ShrTwice(p, 63, 1);
    assert Shr(p, 64) == Shr(p, 63) / 2;
    TopBit(p, 63);
  }

  lemma {:induction false} TopBit(p: nat, k: nat)
    ensures Shr(Low(p, k + 1), k) == Shr(p, k) % 2
  {
    if k > 0 {
      TopBit(p / 2, k - 1);
    }
  }
}
