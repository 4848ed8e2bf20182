/** The 64-bit multiply and divide operations, and the laws they promise. */
module Arith {
  import opened Words

  // ---- Multiplication: the low word, and the high word of a 128-bit product ----

  function Mul(a: u64, b: u64): u64 {
    Wrap(a * b)
  }

  function MulHighSigned(a: u64, b: u64): u64 {
    Wrap(Signed(a) * Signed(b) / 0x1_0000_0000_0000_0000)
  }

  function MulHighUnsigned(a: u64, b: u64): u64 {
    Wrap(a * b / 0x1_0000_0000_0000_0000)
  }

  function MulHighSignedUnsigned(a: u64, b: u64): u64 {
    Wrap(Signed(a) * b / 0x1_0000_0000_0000_0000)
  }

  // ---- Division: truncating, total ----

  /** Rust's `/` on integers. */
  function Quotient(n: int, d: int): int
    requires d != 0
  {
    if n >= 0 then n / d else -(-n / d)
  }

  /** Rust's `%` on integers. */
  function Remainder(n: int, d: int): int
    requires d != 0
  {
    if n >= 0 then n % d else -(-n % d)
  }

  function DivUnsigned(a: u64, b: u64): u64 {
    if b == 0 then 0xFFFF_FFFF_FFFF_FFFF else a / b
  }

  function RemUnsigned(a: u64, b: u64): u64 {
    if b == 0 then a else a % b
  }

  predicate DivOverflows(a: u64, b: u64) {
    Signed(a) == -0x8000_0000_0000_0000 && Signed(b) == -1
  }

  function DivSigned(a: u64, b: u64): u64 {
    if b == 0 then 0xFFFF_FFFF_FFFF_FFFF
    else if DivOverflows(a, b) then 0x8000_0000_0000_0000
    else Wrap(Quotient(Signed(a), Signed(b)))
  }

  function RemSigned(a: u64, b: u64): u64 {
    if b == 0 then a
    else if DivOverflows(a, b) then 0
    else Wrap(Remainder(Signed(a), Signed(b)))
  }

  // ---- The exact 128-bit product ----

  lemma ProductBounds(x: int, y: int, bound: nat, other: nat)
    requires 0 - bound <= x <= bound && 0 - other <= y <= other
    ensures 0 - bound * other <= x * y <= bound * other
  {
    assert (bound - x) * (other + y) >= 0 && (bound + x) * (other - y) >= 0;
    assert (bound - x) * (other - y) >= 0 && (bound + x) * (other + y) >= 0;
  }

  /** A product that fits a signed 128-bit word is its wrapped high word, read as signed, and its
      low word. */
  lemma SplitSigned(p: int)
    requires -0x8000_0000_0000_0000_0000_0000_0000_0000 <= p < 0x8000_0000_0000_0000_0000_0000_0000_0000
    ensures p == Signed(Wrap(p / 0x1_0000_0000_0000_0000)) * 0x1_0000_0000_0000_0000 + Wrap(p)
  {
    var h := p / 0x1_0000_0000_0000_0000;
    assert -0x8000_0000_0000_0000 <= h < 0x8000_0000_0000_0000;
    assert Signed(Wrap(h)) == h;
  }

  lemma SplitUnsigned(p: int)
    requires 0 <= p < 0x1_0000_0000_0000_0000_0000_0000_0000_0000
    ensures p == Wrap(p / 0x1_0000_0000_0000_0000) * 0x1_0000_0000_0000_0000 + Wrap(p)
  {
    assert 0 <= p / 0x1_0000_0000_0000_0000 < 0x1_0000_0000_0000_0000;
  }

  lemma WrapProduct(x: int, y: int)
    ensures Wrap(x * y) == Wrap(Wrap(x) * Wrap(y))
  {
    var p := 0x1_0000_0000_0000_0000;
    var i, j := x / p, y / p;
    var a, b := Wrap(x), Wrap(y);
    assert x == p * i + a && y == p * j + b;
    assert x * y == p * (i * p * j + i * b + a * j) + a * b by {
      assert (p * i + a) * (p * j + b) == p * i * (p * j) + p * i * b + a * (p * j) + a * b;
    }
    WrapShift(a * b, i * p * j + i * b + a * j);
  }

  lemma WrapShift(x: int, k: int)
    ensures Wrap(0x1_0000_0000_0000_0000 * k + x) == Wrap(x)
  {
    var p := 0x1_0000_0000_0000_0000;
    var q, r := x / p, x % p;
    assert p * k + x == p * (k + q) + r;
  }

  lemma WideMulSigned(a: u64, b: u64)
    ensures Signed(MulHighSigned(a, b)) * 0x1_0000_0000_0000_0000 + Mul(a, b) == Signed(a) * Signed(b)
  {
    ProductBounds(Signed(a), Signed(b), 0x8000_0000_0000_0000, 0x8000_0000_0000_0000);
    WrapProduct(Signed(a), Signed(b));
    SplitSigned(Signed(a) * Signed(b));
  }

  lemma ProductNonNegative(a: nat, b: nat)
    ensures 0 <= a * b
  {
  }

  lemma WideMulUnsigned(a: u64, b: u64)
    ensures MulHighUnsigned(a, b) * 0x1_0000_0000_0000_0000 + Mul(a, b) == a * b
  {
    ProductBounds(a, b, 0xFFFF_FFFF_FFFF_FFFF, 0xFFFF_FFFF_FFFF_FFFF);
    ProductNonNegative(a, b);
    SplitUnsigned(a * b);
  }

  lemma WideMulSignedUnsigned(a: u64, b: u64)
    ensures Signed(MulHighSignedUnsigned(a, b)) * 0x1_0000_0000_0000_0000 + Mul(a, b) == Signed(a) * b
  {
    ProductBounds(Signed(a), b, 0x8000_0000_0000_0000, 0xFFFF_FFFF_FFFF_FFFF);
    WrapProduct(Signed(a), b);
    SplitSigned(Signed(a) * b);
  }

  // ---- The total division law ----

  lemma DivisionIdentity(n: int, d: int)
    requires d != 0
    ensures n == Quotient(n, d) * d + Remainder(n, d)
    ensures Abs(Remainder(n, d)) < Abs(d)
    ensures Remainder(n, d) == 0 || (Remainder(n, d) > 0 <==> n > 0)
    ensures Abs(Quotient(n, d)) <= Abs(n)
  {
    hide Quotient, Remainder;
    var q, r := Euclid(n, d);
    QuotientBound(Abs(n), d, q, r);
    if n < 0 {
      Negated(q, d);
    }
  }

  lemma Euclid(n: int, d: int) returns (q: int, r: nat)
    requires d != 0
    ensures Abs(n) == d * q + r && r < Abs(d)
    ensures Quotient(n, d) == (if n >= 0 then q else -q) && Remainder(n, d) == (if n >= 0 then r else 0 - r)
  {
    q, r := Abs(n) / d, Abs(n) % d;
  }

  lemma Negated(q: int, d: int)
    ensures (-q) * d == -(d * q)
  {
  }

  function Abs(x: int): nat {
    if x < 0 then -x else x
  }

  lemma QuotientBound(m: nat, d: int, q: int, r: int)
    requires d != 0 && m == d * q + r && 0 <= r < Abs(d)
    ensures Abs(q) <= m
  {
    if d > 0 {
      PositiveQuotientBound(m, d, q, r);
    } else {
      assert d * q == (0 - d) * (0 - q);
      PositiveQuotientBound(m, 0 - d, 0 - q, r);
    }
  }

  lemma PositiveQuotientBound(m: nat, e: nat, t: int, r: int)
    requires m == e * t + r && 0 <= r < e
    ensures 0 <= t <= m
  {
    if t < 0 {
      MulMonotone(e, t, -1);
    } else {
      MulMonotone(t, 1, e);
    }
  }

  lemma MulMonotone(x: nat, y: int, z: int)
    requires y <= z
    ensures x * y <= x * z
  {
  }

  lemma WrapSum(x: int, y: int)
    ensures Wrap(x + y) == Wrap(Wrap(x) + Wrap(y))
  {
  }

  /** Quotient times divisor plus remainder is the dividend modulo 2^64, for every input. */
  lemma DivisionLaw(a: u64, b: u64)
    ensures Wrap(DivUnsigned(a, b) * b + RemUnsigned(a, b)) == a
    ensures Wrap(DivSigned(a, b) * b + RemSigned(a, b)) == a
  {
    if b != 0 {
      UnsignedDivision(a, b);
      SignedDivisionLaw(a, b);
    }
  }

  lemma UnsignedDivision(a: u64, b: u64)
    requires b != 0
    ensures DivUnsigned(a, b) * b + RemUnsigned(a, b) == a && RemUnsigned(a, b) < b
  {
  }

  lemma SignedDivisionLaw(a: u64, b: u64)
    requires b != 0
    ensures Wrap(DivSigned(a, b) * b + RemSigned(a, b)) == a
  {
    if DivOverflows(a, b) {
      assert a == 0x8000_0000_0000_0000 && b == 0xFFFF_FFFF_FFFF_FFFF;
    } else {
      var n, d := Signed(a), Signed(b);
      var q, r := Quotient(n, d), Remainder(n, d);
      DivisionIdentity(n, d);
      WrapProduct(q, d);
      SumOfWraps(q * d, r, Wrap(q) * b);
    }
  }

  lemma SumOfWraps(x: int, y: int, x': int)
    requires Wrap(x) == Wrap(x')
    ensures Wrap(x' + Wrap(y)) == Wrap(x + y)
  {
    WrapSum(x, y);
    WrapSum(x', Wrap(y));
  }

  /** Away from zero divisors and overflow nothing wraps: the results are the truncated quotient
      and a remainder that is smaller than the divisor and has the dividend's sign. */
  lemma DivisionIsTruncating(a: u64, b: u64)
    requires b != 0 && !DivOverflows(a, b)
    ensures Signed(DivSigned(a, b)) * Signed(b) + Signed(RemSigned(a, b)) == Signed(a)
    ensures Abs(Signed(RemSigned(a, b))) < Abs(Signed(b))
    ensures Signed(RemSigned(a, b)) == 0 || (Signed(RemSigned(a, b)) > 0 <==> Signed(a) > 0)
  {
    var n, d := Signed(a), Signed(b);
    var q, r := Quotient(n, d), Remainder(n, d);
    DivisionIdentity(n, d);
    QuotientFits(n, d, q, r);
    SignedWrap(q);
    SignedWrap(r);
  }

  lemma SignedWrap(x: int)
    requires -0x8000_0000_0000_0000 <= x < 0x8000_0000_0000_0000
    ensures Signed(Wrap(x)) == x
  {
  }

  /** Only the overflowing pair has a quotient of 2^63. */
  lemma QuotientFits(n: int, d: int, q: int, r: int)
    requires n == q * d + r && d != 0 && Abs(r) < Abs(d) && Abs(q) <= Abs(n)
    requires r == 0 || (r > 0 <==> n > 0)
    requires -0x8000_0000_0000_0000 <= n < 0x8000_0000_0000_0000
    requires !(n == -0x8000_0000_0000_0000 && d == -1)
    ensures -0x8000_0000_0000_0000 <= q < 0x8000_0000_0000_0000
  {
  }

  // ---- Quotient and remainder, by what they are ----

  /** By zero the quotient is all ones and the remainder the dividend. */
  ghost predicate DividesUnsigned(a: u64, b: u64, q: u64, r: u64) {
    if b == 0 then q == 0xFFFF_FFFF_FFFF_FFFF && r == a
    else a == q * b + r && r < b
  }

  /** The same by zero; -2^63 by -1 is -2^63 and leaves nothing; otherwise the quotient is truncated and
      the remainder has the dividend's sign. */
  ghost predicate DividesSigned(a: u64, b: u64, q: u64, r: u64) {
    if b == 0 then q == 0xFFFF_FFFF_FFFF_FFFF && r == a
    else if a == 0x8000_0000_0000_0000 && b == 0xFFFF_FFFF_FFFF_FFFF then q == 0x8000_0000_0000_0000 && r == 0
    else
      && Signed(a) == Signed(q) * Signed(b) + Signed(r)
      && Abs(Signed(r)) < Abs(Signed(b))
      && (Signed(r) == 0 || (Signed(r) > 0 <==> Signed(a) > 0))
  }

  lemma UnsignedQuotient(a: u64, b: u64)
    ensures DividesUnsigned(a, b, DivUnsigned(a, b), RemUnsigned(a, b))
  {
    if b != 0 {
      UnsignedDivision(a, b);
    }
  }

  lemma SignedQuotient(a: u64, b: u64)
    ensures DividesSigned(a, b, DivSigned(a, b), RemSigned(a, b))
  {
    if b != 0 && !DivOverflows(a, b) {
      DivisionIsTruncating(a, b);
    }
  }

  lemma SameQuotient(q: int, d: int, r: int, q': int, r': int)
    requires q * d + r == q' * d + r' && Abs(r) < Abs(d) && Abs(r') < Abs(d)
    requires r == 0 || r' == 0 || (r > 0 <==> r' > 0)
    ensures q == q' && r == r'
  {
    var k := q' - q;
    assert k * d == r - r' by {
      assert k * d == q' * d - q * d;
    }
    if k != 0 {
      FarApart(k, d);
    }
  }

  lemma FarApart(k: int, d: int)
    requires k != 0
    ensures k * d >= Abs(d) || k * d <= 0 - Abs(d)
  {
    var e := Abs(d);
    assert k * d == e * k || k * d == -(e * k);
    if k > 0 {
      MulMonotone(e, 1, k);
    } else {
      MulMonotone(e, k, -1);
    }
  }

  /** Quotient and remainder are determined by dividend and divisor. */
  lemma QuotientUnique(a: u64, b: u64, q: u64, r: u64, q': u64, r': u64)
    ensures DividesUnsigned(a, b, q, r) && DividesUnsigned(a, b, q', r') ==> q == q' && r == r'
    ensures DividesSigned(a, b, q, r) && DividesSigned(a, b, q', r') ==> q == q' && r == r'
  {
    hide Signed;
    if b != 0 {
      if DividesUnsigned(a, b, q, r) && DividesUnsigned(a, b, q', r') {
        SameQuotient(q, b, r, q', r');
      }
      if !(a == 0x8000_0000_0000_0000 && b == 0xFFFF_FFFF_FFFF_FFFF) {
        if DividesSigned(a, b, q, r) && DividesSigned(a, b, q', r') {
          SameQuotient(Signed(q), Signed(b), Signed(r), Signed(q'), Signed(r'));
        }
      }
    }
  }
}
