/** Machine words: 64-bit registers as bounded integers, with wrap-around written out,
    and little-endian byte strings. */
module Words {

  type u64 = x: int | 0 <= x < 0x1_0000_0000_0000_0000
  type byte = x: int | 0 <= x < 0x100

  /** What `overflowing_*` and `wrapping_*` keep of a mathematical result. */
  function Wrap(x: int): (r: u64) {
    x % 0x1_0000_0000_0000_0000
  }

  /** `overflowing_add`; a negative operand is a sign-extended immediate. */
  function Plus(a: int, b: int): u64 {
    Wrap(a + b)
  }

  /** `overflowing_sub` */
  function Minus(a: int, b: int): u64 {
    Wrap(a - b)
  }

  /** `as i64`. */
  function Signed(x: u64): (r: int)
    ensures -0x8000_0000_0000_0000 <= r < 0x8000_0000_0000_0000
    ensures Wrap(r) == x
  {
    if x < 0x8000_0000_0000_0000 then x else x - 0x1_0000_0000_0000_0000
  }

  /** i32 wrap-around. */
  function WrapI32(x: int): (r: int)
    ensures -0x8000_0000 <= r < 0x8000_0000
  {
    (x + 0x8000_0000) % 0x1_0000_0000 - 0x8000_0000
  }

  predicate FitsI32(x: int) {
    -0x8000_0000 <= x < 0x8000_0000
  }

  /** `sign_extend` from the low 8, 16 or 32 bits (`n` bytes); a full word is left alone. */
  function SignExtend(x: u64, n: nat): u64 {
    match n
    case 1 => Wrap((x + 0x80) % 0x100 - 0x80)
    case 2 => Wrap((x + 0x8000) % 0x1_0000 - 0x8000)
    case 4 => Wrap((x + 0x8000_0000) % 0x1_0000_0000 - 0x8000_0000)
    case _ => x
  }

  /** `& !1`: the lowest bit cleared. */
  function ClearLowBit(x: u64): (r: u64)
    ensures r % 2 == 0 && r <= x <= r + 1
  {
    x - x % 2
  }

  function FlagWord(b: bool): u64 {
    if b then 1 else 0
  }

  // ---- Powers of two and bitwise operations on naturals ----

  function Pow2(n: nat): (r: nat)
    ensures r >= 1
  {
    if n == 0 then 1 else 2 * Pow2(n - 1)
  }

  lemma {:induction false} Pow2Add(a: nat, b: nat)
    ensures Pow2(a + b) == Pow2(a) * Pow2(b)
  {
    if a == 0 {
    } else {
      Pow2Add(a - 1, b);
      assert Pow2(a) * Pow2(b) == 2 * (Pow2(a - 1) * Pow2(b));
    }
  }

  lemma Pow2Of64()
    ensures Pow2(32) == 0x1_0000_0000
    ensures Pow2(63) == 0x8000_0000_0000_0000
    ensures Pow2(64) == 0x1_0000_0000_0000_0000
  {
    assert Pow2(8) == 256;
    Pow2Add(8, 8);
    Pow2Add(16, 16);
    Pow2Add(32, 32);
  }

  function Or(x: nat, y: nat): nat {
    if x == 0 && y == 0 then 0
    else 2 * Or(x / 2, y / 2) + (if x % 2 == 1 || y % 2 == 1 then 1 else 0)
  }

  function Xor(x: nat, y: nat): nat {
    if x == 0 && y == 0 then 0
    else 2 * Xor(x / 2, y / 2) + (if x % 2 == y % 2 then 0 else 1)
  }

  lemma {:induction false} OrBound(x: nat, y: nat, n: nat)
    requires x < Pow2(n) && y < Pow2(n)
    ensures Or(x, y) < Pow2(n)
  {
    if n == 0 {
    } else {
      OrBound(x / 2, y / 2, n - 1);
    }
  }

  lemma {:induction false} XorBound(x: nat, y: nat, n: nat)
    requires x < Pow2(n) && y < Pow2(n)
    ensures Xor(x, y) < Pow2(n)
  {
    if n == 0 {
    } else {
      XorBound(x / 2, y / 2, n - 1);
    }
  }

  function Or64(x: u64, y: u64): u64 {
    Pow2Of64();
    OrBound(x, y, 64);
    Or(x, y)
  }

  lemma OrOfFlags(a: bool, b: bool)
    ensures Or64(FlagWord(a), FlagWord(b)) == FlagWord(a || b)
  {
    assert Or(0, 0) == 0;
  }

  // ---- Little-endian bytes ----

  function Pow256(n: nat): (r: nat)
    ensures r >= 1
  {
    match n
    case 0 => 1
    case 1 => 0x100
    case 2 => 0x1_0000
    case 3 => 0x100_0000
    case 4 => 0x1_0000_0000
    case 5 => 0x100_0000_0000
    case 6 => 0x1_0000_0000_0000
    case 7 => 0x100_0000_0000_0000
    case 8 => 0x1_0000_0000_0000_0000
    case _ => 256 * Pow256(n - 1)
  }

  /** The `n` low bytes of `v`, least significant first. */
  function ToLe(v: nat, n: nat): (s: seq<byte>)
    ensures |s| == n
  {
    if n == 0 then [] else [v % 0x100] + ToLe(v / 0x100, n - 1)
  }

  function FromLe(s: seq<byte>): (v: nat)
    ensures v < Pow256(|s|)
  {
    if s == [] then 0 else s[0] + 0x100 * FromLe(s[1..])
  }

  lemma LeRoundTrip(v: nat, n: nat)
    requires v < Pow256(n)
    ensures FromLe(ToLe(v, n)) == v
  {
    LeTruncates(v, n);
    ModUnique(v, Pow256(n), 0, v);
  }

  lemma ModUnique(x: int, d: int, q: int, r: int)
    requires x == d * q + r && 0 <= r < d
    ensures x % d == r
  {
    var k := x / d - q;
    assert d * k == r - x % d by {
      assert x == d * (x / d) + x % d;
      assert d * k == d * (x / d) - d * q;
    }
    if k >= 1 {
      Scaled(d, 1, k);
    } else if k <= -1 {
      Scaled(d, k, -1);
    }
  }

  lemma Scaled(d: nat, a: int, b: int)
    requires a <= b
    ensures d * a <= d * b
  {
  }

  /** Modulo 256 p, byte first. */
  lemma ByteThenRest(v: nat, p: nat)
    requires p > 0
    ensures v % (0x100 * p) == v % 0x100 + 0x100 * (v / 0x100 % p)
  {
    var h, l := v / 0x100, v % 0x100;
    var q, r := h / p, h % p;
    assert h == p * q + r;
    assert v == 0x100 * (p * q) + (l + 0x100 * r);
    assert 0x100 * (p * q) == (0x100 * p) * q;
    ModUnique(v, 0x100 * p, q, l + 0x100 * r);
  }

  lemma Pow256Step(n: nat)
    ensures Pow256(n + 1) == 0x100 * Pow256(n)
  {
  }

  /** Writing `n` bytes keeps the value modulo 256^n. */
  lemma {:induction false} LeTruncates(v: nat, n: nat)
    ensures FromLe(ToLe(v, n)) == v % Pow256(n)
  {
    if n == 0 {
      assert Pow256(0) == 1;
    } else {
      hide Pow256;
      LeTruncates(v / 0x100, n - 1);
      assert ToLe(v, n)[1..] == ToLe(v / 0x100, n - 1);
      Pow256Step(n - 1);
      ByteThenRest(v, Pow256(n - 1));
    }
  }
}
