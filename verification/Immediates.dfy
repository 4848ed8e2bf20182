/** The jump and branch offsets held in the bits of an instruction. */
module Immediates {
  import opened Words

  type u32 = x: int | 0 <= x < 0x1_0000_0000

  /** `length` bits of the word from bit `lower` on. */
  function Field(bits: u32, lower: nat, length: nat): (r: nat)
    ensures r < Pow2(length)
  {
    bits / Pow2(lower) % Pow2(length)
  }

  /** `x`: a field, moved to bit `shifts`. */
  function X(bits: u32, lower: nat, length: nat, shifts: nat): nat {
    Field(bits, lower, length) * Pow2(shifts)
  }

  /** `xs`: shifted to the top of an i32 and back down with its sign, then moved to bit `shifts`. */
  function Xs(bits: u32, lower: nat, length: nat, shifts: nat): u32
    requires lower + length <= 32
  {
    WrapI32(bits * Pow2(32 - lower - length)) / Pow2(32 - length) * Pow2(shifts) % 0x1_0000_0000
  }

  function BTypeImmediate(bits: u32): int {
    WrapI32(Or(Or(Or(X(bits, 8, 4, 1), X(bits, 25, 6, 5)), X(bits, 7, 1, 11)), Xs(bits, 31, 1, 12)))
  }

  function JTypeImmediate(bits: u32): int {
    WrapI32(Or(Or(Or(X(bits, 21, 10, 1), X(bits, 20, 1, 11)), X(bits, 12, 8, 12)), Xs(bits, 31, 1, 20)))
  }

  /** `b_immediate` of the compressed encoding. */
  function CompressedBImmediate(bits: u32): int {
    WrapI32(Or(Or(Or(Or(X(bits, 3, 2, 1), X(bits, 10, 2, 3)), X(bits, 2, 1, 5)), X(bits, 5, 2, 6)), Xs(bits, 12, 1, 8)))
  }

  /** `j_immediate` of the compressed encoding. */
  function CompressedJImmediate(bits: u32): int {
    WrapI32(
      Or(Or(Or(Or(Or(Or(Or(
        X(bits, 3, 3, 1), X(bits, 11, 1, 4)), X(bits, 2, 1, 5)), X(bits, 7, 1, 6)), X(bits, 6, 1, 7)),
        X(bits, 9, 2, 8)), X(bits, 8, 1, 10)), Xs(bits, 12, 1, 11)))
  }

  // ---- Fields that share no bit add up ----

  lemma {:induction false} OrAddsAbove(x: nat, k: nat, n: nat)
    requires x < Pow2(n)
    ensures Or(x, k * Pow2(n)) == x + k * Pow2(n)
    decreases n
  {
    if n == 0 {
      OrZero(k);
    } else {
      var half := k * Pow2(n - 1);
      assert k * Pow2(n) == 2 * half;
      OrAddsAbove(x / 2, k, n - 1);
    }
  }

  lemma {:induction false} OrZero(k: nat)
    ensures Or(0, k) == k
  {
    if k > 0 {
      OrZero(k / 2);
    }
  }

  lemma Nested(acc: nat, f: nat, p: nat, q: nat)
    requires acc < p && f < q
    ensures acc + f * p < p * q
  {
    Scaled(p, f + 1, q);
  }

  /** One more field above the bits gathered so far. */
  lemma OneMore(acc: nat, bits: u32, lower: nat, length: nat, shifts: nat)
    requires acc < Pow2(shifts)
    ensures Or(acc, X(bits, lower, length, shifts)) == acc + X(bits, lower, length, shifts) < Pow2(shifts + length)
  {
    hide Or, Pow2, Field;
    var f := Field(bits, lower, length);
    OrAddsAbove(acc, f, shifts);
    Pow2Add(shifts, length);
    Nested(acc, f, Pow2(shifts), Pow2(length));
  }

  lemma {:induction false} PowersUpTo20(n: nat)
    requires n <= 20
    ensures Pow2(n) <= 0x10_0000
  {
    assert Pow2(16) == 0x1_0000;
    Pow2Add(16, 4);
    assert Pow2(4) == 16;
    Growing(n, 20);
  }

  lemma {:induction false} Growing(a: nat, b: nat)
    requires a <= b
    ensures Pow2(a) <= Pow2(b)
    decreases b
  {
    if a < b {
      Growing(a, b - 1);
    }
  }

  lemma SmallPowers()
    ensures Pow2(0) == 1 && Pow2(1) == 2 && Pow2(12) == 0x1000 && Pow2(19) == 0x8_0000 && Pow2(31) == 0x8000_0000
  {
    assert Pow2(12) == 0x1000;
    assert Pow2(19) == 0x8_0000;
    Pow2Add(12, 19);
  }

  lemma BitOf(bits: u32, lower: nat)
    requires lower == 12 || lower == 31
    ensures Field(bits, lower, 1) == (if lower == 12 then bits / 0x1000 % 2 else bits / 0x8000_0000)
  {
    hide Pow2;
    SmallPowers();
  }

  lemma LowBits(bits: u32)
    ensures WrapI32(bits * 0x8_0000) / 0x8000_0000 == -(bits / 0x1000 % 2)
  {
    hide WrapI32;
    ThreeParts(bits);
    LowBitsApart(bits, bits / 0x2000, bits / 0x1000 % 2, bits % 0x1000);
  }

  lemma ThreeParts(bits: u32)
    ensures bits == 0x2000 * (bits / 0x2000) + 0x1000 * (bits / 0x1000 % 2) + bits % 0x1000
  {
    Digit(bits, 0x1000, 2);
  }

  lemma LowBitsApart(bits: u32, q: nat, b: int, r: nat)
    requires bits == 0x2000 * q + 0x1000 * b + r && 0 <= b < 2 && r < 0x1000
    ensures WrapI32(bits * 0x8_0000) / 0x8000_0000 == -b
  {
    var z := 0x8000_0000 * b + 0x8_0000 * r;
    assert bits * 0x8_0000 == 0x1_0000_0000 * q + z;
    assert WrapI32(bits * 0x8_0000) == if b == 0 then z else z - 0x1_0000_0000 by {
      ModUnique(bits * 0x8_0000 + 0x8000_0000, 0x1_0000_0000, q + b, z + 0x8000_0000 - 0x1_0000_0000 * b);
    }
  }

  /** A one-bit field taken with its sign is 0 or -1. */
  lemma TopBit(bits: u32, lower: nat)
    requires lower == 12 || lower == 31
    ensures WrapI32(bits * Pow2(32 - lower - 1)) / Pow2(31) + Field(bits, lower, 1) == 0
  {
    hide Pow2, Field, WrapI32;
    SmallPowers();
    BitOf(bits, lower);
    if lower == 12 {
      LowBits(bits);
    } else {
      assert WrapI32(bits) / 0x8000_0000 + bits / 0x8000_0000 == 0 by { AsI32(bits); }
    }
  }

  lemma AsI32(bits: u32)
    ensures WrapI32(bits) == if bits < 0x8000_0000 then bits else bits - 0x1_0000_0000
  {
  }

  lemma SignMask(bits: u32, lower: nat, shifts: nat)
    requires lower == 12 || lower == 31
    requires shifts <= 20
    ensures Xs(bits, lower, 1, shifts) == if Field(bits, lower, 1) == 0 then 0 else 0x1_0000_0000 - Pow2(shifts)
  {
    hide Pow2, Field, WrapI32;
    TopBit(bits, lower);
    SmallPowers();
    PowersUpTo20(shifts);
    NegativeMod(Pow2(shifts));
  }

  lemma NegativeMod(p: nat)
    requires 0 < p <= 0x10_0000
    ensures -1 * p % 0x1_0000_0000 == 0x1_0000_0000 - p
  {
  }

  /** The sign bit on top of `acc`, read as an i32, counts -2^shifts. */
  lemma SignOnTop(acc: nat, bits: u32, lower: nat, shifts: nat)
    requires lower == 12 || lower == 31
    requires shifts <= 20 && acc < Pow2(shifts)
    ensures WrapI32(Or(acc, Xs(bits, lower, 1, shifts))) == acc - Field(bits, lower, 1) * Pow2(shifts)
  {
    hide Pow2, Field, WrapI32, Or, Xs;
    var p := Pow2(shifts);
    SmallPowers();
    PowersUpTo20(shifts);
    SignMask(bits, lower, shifts);
    if Field(bits, lower, 1) == 0 {
      OrAddsAbove(acc, 0, shifts);
      AsI32(acc);
    } else {
      var k: nat := Pow2(32 - shifts) - 1;
      Pow2Add(shifts, 32 - shifts);
      Pow2Of64();
      assert k * p == 0x1_0000_0000 - p;
      OrAddsAbove(acc, k, shifts);
      AsI32(acc + k * p);
    }
  }

  // ---- What the four offsets are ----

  lemma Powers()
    ensures Pow2(1) == 2 && Pow2(2) == 4 && Pow2(3) == 8 && Pow2(4) == 16 && Pow2(5) == 32 && Pow2(6) == 64
    ensures Pow2(7) == 128 && Pow2(8) == 256 && Pow2(10) == 1024 && Pow2(11) == 2048 && Pow2(12) == 4096
    ensures Pow2(20) == 0x10_0000
  {
    assert Pow2(8) == 256;
    assert Pow2(12) == 4096;
    Pow2Add(8, 12);
  }

  /** A branch: bits 1-4, 5-10, 11 and the sign. */
  lemma BTypeValue(bits: u32)
    ensures BTypeImmediate(bits) ==
            2 * Field(bits, 8, 4) + 32 * Field(bits, 25, 6) + 2048 * Field(bits, 7, 1) - 4096 * Field(bits, 31, 1)
  {
    hide Or, Xs, Field, WrapI32, Pow2;
    Powers();
    OneMore(0, bits, 8, 4, 1);
    var a := X(bits, 8, 4, 1);
    OneMore(a, bits, 25, 6, 5);
    var b := a + X(bits, 25, 6, 5);
    OneMore(b, bits, 7, 1, 11);
    var c := b + X(bits, 7, 1, 11);
    SignOnTop(c, bits, 31, 12);
  }

  /** A direct jump: bits 1-10, 11, 12-19 and the sign. */
  lemma JTypeValue(bits: u32)
    ensures JTypeImmediate(bits) ==
            2 * Field(bits, 21, 10) + 2048 * Field(bits, 20, 1) +
            4096 * Field(bits, 12, 8) - 1048576 * Field(bits, 31, 1)
  {
    hide Or, Xs, Field, WrapI32, Pow2;
    Powers();
    OneMore(0, bits, 21, 10, 1);
    var a := X(bits, 21, 10, 1);
    OneMore(a, bits, 20, 1, 11);
    var b := a + X(bits, 20, 1, 11);
    OneMore(b, bits, 12, 8, 12);
    var c := b + X(bits, 12, 8, 12);
    SignOnTop(c, bits, 31, 20);
  }

  /** A compressed branch: bits 1-2, 3-4, 5, 6-7 and the sign. */
  lemma CompressedBValue(bits: u32)
    ensures CompressedBImmediate(bits) ==
            2 * Field(bits, 3, 2) + 8 * Field(bits, 10, 2) + 32 * Field(bits, 2, 1) +
            64 * Field(bits, 5, 2) - 256 * Field(bits, 12, 1)
  {
    hide Or, Xs, Field, WrapI32, Pow2;
    Powers();
    OneMore(0, bits, 3, 2, 1);
    var a := X(bits, 3, 2, 1);
    OneMore(a, bits, 10, 2, 3);
    var b := a + X(bits, 10, 2, 3);
    OneMore(b, bits, 2, 1, 5);
    var c := b + X(bits, 2, 1, 5);
    OneMore(c, bits, 5, 2, 6);
    var d := c + X(bits, 5, 2, 6);
    SignOnTop(d, bits, 12, 8);
  }

  /** A compressed jump: bits 1-3, 4, 5, 6, 7, 8-9, 10 and the sign. */
  lemma CompressedJValue(bits: u32)
    ensures CompressedJImmediate(bits) ==
            2 * Field(bits, 3, 3) + 16 * Field(bits, 11, 1) + 32 * Field(bits, 2, 1) +
            64 * Field(bits, 7, 1) + 128 * Field(bits, 6, 1) + 256 * Field(bits, 9, 2) +
            1024 * Field(bits, 8, 1) - 2048 * Field(bits, 12, 1)
  {
    hide Or, Xs, Field, WrapI32, Pow2;
    Powers();
    OneMore(0, bits, 3, 3, 1);
    var a := X(bits, 3, 3, 1);
    OneMore(a, bits, 11, 1, 4);
    var b := a + X(bits, 11, 1, 4);
    OneMore(b, bits, 2, 1, 5);
    var c := b + X(bits, 2, 1, 5);
    OneMore(c, bits, 7, 1, 6);
    var d := c + X(bits, 7, 1, 6);
    OneMore(d, bits, 6, 1, 7);
    var e := d + X(bits, 6, 1, 7);
    OneMore(e, bits, 9, 2, 8);
    var f := e + X(bits, 9, 2, 8);
    OneMore(f, bits, 8, 1, 10);
    var g := f + X(bits, 8, 1, 10);
    SignOnTop(g, bits, 12, 11);
  }

  // ---- Every even offset in range is held by some word ----

  lemma MorePowers()
    ensures Pow2(9) == 0x200 && Pow2(13) == 0x2000 && Pow2(21) == 0x20_0000 && Pow2(25) == 0x200_0000
  {
    assert Pow2(9) == 512;
    Powers();
    Pow2Add(12, 1);
    Pow2Add(20, 1);
    Pow2Add(20, 5);
  }

  /** The field of a word put together from the bits below it, its own and those above. */
  lemma Pick(low: nat, f: nat, high: nat, lower: nat, length: nat)
    requires low < Pow2(lower) && f < Pow2(length)
    requires low + Pow2(lower) * (f + Pow2(length) * high) < 0x1_0000_0000
    ensures Field(low + Pow2(lower) * (f + Pow2(length) * high), lower, length) == f
  {
    hide Pow2;
    var p, q := Pow2(lower), Pow2(length);
    DivUnique(low + p * (f + q * high), p, f + q * high, low);
    ModUnique(f + q * high, q, high, f);
  }

  lemma DivUnique(x: int, d: nat, q: int, r: nat)
    requires r < d && x == d * q + r
    ensures x / d == q
  {
    ModUnique(x, d, q, r);
    assert d * (x / d) == d * q;
    if x / d != q {
      if x / d > q { Scaled(d, q + 1, x / d); } else { Scaled(d, x / d + 1, q); }
    }
  }

  function Quot(x: int, p: int): int
    requires p > 0
  {
    x / p
  }

  /** The digit of `x` at place `p` in radix `q`. */
  function Part(x: int, p: int, q: int): (r: nat)
    requires p > 0 && q > 0
    ensures r < q
  {
    x / p % q
  }

  lemma DigitAt(x: int, p: nat, q: nat, pq: nat)
    requires p > 0 && q > 0 && pq == p * q > 0
    ensures Quot(x, p) == Part(x, p, q) + q * Quot(x, pq)
  {
    Digit(x, p, q);
  }

  /** The even numbers of a range, halved, and their sign. */
  lemma Ends(d: int, p: int)
    requires d % 2 == 0 && p > 0 && -p <= d < p
    ensures d == 2 * Quot(d, 2) && Quot(d, p) == if d < 0 then -1 else 0
  {
    DivUnique(d, p, if d < 0 then -1 else 0, if d < 0 then d + p else d);
  }

  /** One digit of `x` in mixed radix. */
  lemma Digit(x: int, p: nat, q: nat)
    requires p > 0 && q > 0 && p * q > 0
    ensures x / p == x / p % q + q * (x / (p * q))
  {
    var y := x / p;
    var low := x - p * y + p * (y % q);
    assert x == p * q * (y / q) + low by {
      assert p * y == p * (q * (y / q) + y % q);
      assert p * (q * (y / q)) == p * q * (y / q);
    }
    Nested(x - p * y, y % q, p, q);
    DivUnique(x, p * q, y / q, low);
  }

  function BTypeWord(a: nat, b: nat, c: nat, s: nat): u32
    requires a < 16 && b < 64 && c < 2 && s < 2
  {
    0x80 * c + 0x100 * a + 0x2000000 * b + 0x80000000 * s
  }

  lemma BTypeFields(a: nat, b: nat, c: nat, s: nat)
    requires a < 16 && b < 64 && c < 2 && s < 2
    ensures var w := BTypeWord(a, b, c, s);
            Field(w, 8, 4) == a && Field(w, 25, 6) == b && Field(w, 7, 1) == c
            && Field(w, 31, 1) == s
  {
    hide Pow2, Field;
    Powers();
    SmallPowers();
    MorePowers();
    Pick(0, c, a + 0x20000 * b + 0x800000 * s, 7, 1);
    Pick(0x80 * c, a, 0x2000 * b + 0x80000 * s, 8, 4);
    Pick(0x80 * c + 0x100 * a, b, s, 25, 6);
    Pick(0x80 * c + 0x100 * a + 0x2000000 * b, s, 0, 31, 1);
  }

  lemma BTypeDigits(d: int)
    requires d % 2 == 0 && -4096 <= d < 4096
    ensures d == 2 * Part(d, 2, 16) + 32 * Part(d, 32, 64) + 2048 * Part(d, 2048, 2) - if d < 0 then 4096 else 0
  {
    hide Quot, Part;
    Ends(d, 4096);
    DigitAt(d, 2, 16, 32);
    DigitAt(d, 32, 64, 2048);
    DigitAt(d, 2048, 2, 4096);
  }

  lemma BTypeHolds(offset: int)
    requires offset % 2 == 0 && -4096 <= offset < 4096
    ensures exists bits: u32 :: BTypeImmediate(bits) == offset
  {
    hide BTypeImmediate, BTypeWord, Field, Pow2, Part;
    BTypeDigits(offset);
    var a, b, c, s: nat := Part(offset, 2, 16), Part(offset, 32, 64), Part(offset, 2048, 2),
      if offset < 0 then 1 else 0;
    BTypeFields(a, b, c, s);
    BTypeValue(BTypeWord(a, b, c, s));
  }

  /** A branch word holds exactly the even offsets of 13 bits. */
  lemma BTypeOffsets(d: int)
    ensures (exists bits: u32 :: BTypeImmediate(bits) == d) <==> d % 2 == 0 && -4096 <= d < 4096
  {
    hide BTypeImmediate;
    forall bits: u32
      ensures BTypeImmediate(bits) % 2 == 0 && -4096 <= BTypeImmediate(bits) < 4096
    {
      BTypeRange(bits);
    }
    if d % 2 == 0 && -4096 <= d < 4096 {
      BTypeHolds(d);
    }
  }

  lemma BTypeRange(bits: u32)
    ensures BTypeImmediate(bits) % 2 == 0 && -4096 <= BTypeImmediate(bits) < 4096
  {
    hide BTypeImmediate, Field, Pow2;
    Powers();
    BTypeValue(bits);
  }

  function JTypeWord(a: nat, b: nat, c: nat, s: nat): u32
    requires a < 1024 && b < 2 && c < 256 && s < 2
  {
    0x1000 * c + 0x100000 * b + 0x200000 * a + 0x80000000 * s
  }

  lemma JTypeFields(a: nat, b: nat, c: nat, s: nat)
    requires a < 1024 && b < 2 && c < 256 && s < 2
    ensures var w := JTypeWord(a, b, c, s);
            Field(w, 21, 10) == a && Field(w, 20, 1) == b && Field(w, 12, 8) == c
            && Field(w, 31, 1) == s
  {
    hide Pow2, Field;
    Powers();
    SmallPowers();
    MorePowers();
    Pick(0, c, b + 0x2 * a + 0x800 * s, 12, 8);
    Pick(0x1000 * c, b, a + 0x400 * s, 20, 1);
    Pick(0x1000 * c + 0x100000 * b, a, s, 21, 10);
    Pick(0x1000 * c + 0x100000 * b + 0x200000 * a, s, 0, 31, 1);
  }

  lemma JTypeDigits(d: int)
    requires d % 2 == 0 && -1048576 <= d < 1048576
    ensures d == 2 * Part(d, 2, 1024) + 2048 * Part(d, 2048, 2) +
                 4096 * Part(d, 4096, 256) - if d < 0 then 1048576 else 0
  {
    hide Quot, Part;
    Ends(d, 1048576);
    DigitAt(d, 2, 1024, 2048);
    DigitAt(d, 2048, 2, 4096);
    DigitAt(d, 4096, 256, 1048576);
  }

  lemma JTypeHolds(offset: int)
    requires offset % 2 == 0 && -1048576 <= offset < 1048576
    ensures exists bits: u32 :: JTypeImmediate(bits) == offset
  {
    hide JTypeImmediate, JTypeWord, Field, Pow2, Part;
    JTypeDigits(offset);
    var a, b, c, s: nat := Part(offset, 2, 1024), Part(offset, 2048, 2), Part(offset, 4096, 256),
      if offset < 0 then 1 else 0;
    JTypeFields(a, b, c, s);
    JTypeValue(JTypeWord(a, b, c, s));
  }

  /** A direct jump's word holds exactly the even offsets of 21 bits. */
  lemma JTypeOffsets(d: int)
    ensures (exists bits: u32 :: JTypeImmediate(bits) == d) <==> d % 2 == 0 && -1048576 <= d < 1048576
  {
    hide JTypeImmediate;
    forall bits: u32
      ensures JTypeImmediate(bits) % 2 == 0 && -1048576 <= JTypeImmediate(bits) < 1048576
    {
      JTypeRange(bits);
    }
    if d % 2 == 0 && -1048576 <= d < 1048576 {
      JTypeHolds(d);
    }
  }

  lemma JTypeRange(bits: u32)
    ensures JTypeImmediate(bits) % 2 == 0 && -1048576 <= JTypeImmediate(bits) < 1048576
  {
    hide JTypeImmediate, Field, Pow2;
    Powers();
    JTypeValue(bits);
  }

  function CompressedBWord(a: nat, b: nat, c: nat, d: nat, s: nat): u32
    requires a < 4 && b < 4 && c < 2 && d < 4 && s < 2
  {
    0x4 * c + 0x8 * a + 0x20 * d + 0x400 * b + 0x1000 * s
  }

  lemma CompressedBFields(a: nat, b: nat, c: nat, d: nat, s: nat)
    requires a < 4 && b < 4 && c < 2 && d < 4 && s < 2
    ensures var w := CompressedBWord(a, b, c, d, s);
            Field(w, 3, 2) == a && Field(w, 10, 2) == b && Field(w, 2, 1) == c && Field(w, 5, 2) == d
            && Field(w, 12, 1) == s
  {
    hide Pow2, Field;
    Powers();
    SmallPowers();
    MorePowers();
    Pick(0, c, a + 0x4 * d + 0x80 * b + 0x200 * s, 2, 1);
    Pick(0x4 * c, a, d + 0x20 * b + 0x80 * s, 3, 2);
    Pick(0x4 * c + 0x8 * a, d, 0x8 * b + 0x20 * s, 5, 2);
    Pick(0x4 * c + 0x8 * a + 0x20 * d, b, s, 10, 2);
    Pick(0x4 * c + 0x8 * a + 0x20 * d + 0x400 * b, s, 0, 12, 1);
  }

  lemma CompressedBDigits(d: int)
    requires d % 2 == 0 && -256 <= d < 256
    ensures d == 2 * Part(d, 2, 4) + 8 * Part(d, 8, 4) + 32 * Part(d, 32, 2) +
                 64 * Part(d, 64, 4) - if d < 0 then 256 else 0
  {
    hide Quot, Part;
    Ends(d, 256);
    DigitAt(d, 2, 4, 8);
    DigitAt(d, 8, 4, 32);
    DigitAt(d, 32, 2, 64);
    DigitAt(d, 64, 4, 256);
  }

  lemma CompressedBHolds(offset: int)
    requires offset % 2 == 0 && -256 <= offset < 256
    ensures exists bits: u32 :: CompressedBImmediate(bits) == offset
  {
    hide CompressedBImmediate, CompressedBWord, Field, Pow2, Part;
    CompressedBDigits(offset);
    var a, b, c, d, s: nat := Part(offset, 2, 4), Part(offset, 8, 4), Part(offset, 32, 2), Part(offset, 64, 4),
      if offset < 0 then 1 else 0;
    CompressedBFields(a, b, c, d, s);
    CompressedBValue(CompressedBWord(a, b, c, d, s));
  }

  /** A compressed branch holds exactly the even offsets of 9 bits. */
  lemma CompressedBOffsets(d: int)
    ensures (exists bits: u32 :: CompressedBImmediate(bits) == d) <==> d % 2 == 0 && -256 <= d < 256
  {
    hide CompressedBImmediate;
    forall bits: u32
      ensures CompressedBImmediate(bits) % 2 == 0 && -256 <= CompressedBImmediate(bits) < 256
    {
      CompressedBRange(bits);
    }
    if d % 2 == 0 && -256 <= d < 256 {
      CompressedBHolds(d);
    }
  }

  lemma CompressedBRange(bits: u32)
    ensures CompressedBImmediate(bits) % 2 == 0 && -256 <= CompressedBImmediate(bits) < 256
  {
    hide CompressedBImmediate, Field, Pow2;
    Powers();
    CompressedBValue(bits);
  }

  function CompressedJWord(a: nat, b: nat, c: nat, d: nat, e: nat, f: nat, g: nat, s: nat): u32
    requires a < 8 && b < 2 && c < 2 && d < 2 && e < 2 && f < 4 && g < 2 && s < 2
  {
    0x4 * c + 0x8 * a + 0x40 * e + 0x80 * d + 0x100 * g + 0x200 * f + 0x800 * b + 0x1000 * s
  }

  lemma CompressedJFields(a: nat, b: nat, c: nat, d: nat, e: nat, f: nat, g: nat, s: nat)
    requires a < 8 && b < 2 && c < 2 && d < 2 && e < 2 && f < 4 && g < 2 && s < 2
    ensures var w := CompressedJWord(a, b, c, d, e, f, g, s);
            Field(w, 3, 3) == a && Field(w, 11, 1) == b && Field(w, 2, 1) == c &&
            Field(w, 7, 1) == d && Field(w, 6, 1) == e && Field(w, 9, 2) == f && Field(w, 8, 1) == g
            && Field(w, 12, 1) == s
  {
    hide Pow2, Field;
    Powers();
    SmallPowers();
    MorePowers();
    Pick(0, c, a + 0x8 * e + 0x10 * d + 0x20 * g + 0x40 * f + 0x100 * b + 0x200 * s, 2, 1);
    Pick(0x4 * c, a, e + 0x2 * d + 0x4 * g + 0x8 * f + 0x20 * b + 0x40 * s, 3, 3);
    Pick(0x4 * c + 0x8 * a, e, d + 0x2 * g + 0x4 * f + 0x10 * b + 0x20 * s, 6, 1);
    Pick(0x4 * c + 0x8 * a + 0x40 * e, d, g + 0x2 * f + 0x8 * b + 0x10 * s, 7, 1);
    Pick(0x4 * c + 0x8 * a + 0x40 * e + 0x80 * d, g, f + 0x4 * b + 0x8 * s, 8, 1);
    Pick(0x4 * c + 0x8 * a + 0x40 * e + 0x80 * d + 0x100 * g, f, b + 0x2 * s, 9, 2);
    Pick(0x4 * c + 0x8 * a + 0x40 * e + 0x80 * d + 0x100 * g + 0x200 * f, b, s, 11, 1);
    Pick(0x4 * c + 0x8 * a + 0x40 * e + 0x80 * d + 0x100 * g + 0x200 * f + 0x800 * b, s, 0, 12, 1);
  }

  lemma CompressedJDigits(d: int)
    requires d % 2 == 0 && -2048 <= d < 2048
    ensures d == 2 * Part(d, 2, 8) + 16 * Part(d, 16, 2) + 32 * Part(d, 32, 2) + 64 * Part(d, 64, 2) +
                 128 * Part(d, 128, 2) + 256 * Part(d, 256, 4) +
                 1024 * Part(d, 1024, 2) - if d < 0 then 2048 else 0
  {
    hide Quot, Part;
    Ends(d, 2048);
    DigitAt(d, 2, 8, 16);
    DigitAt(d, 16, 2, 32);
    DigitAt(d, 32, 2, 64);
    DigitAt(d, 64, 2, 128);
    DigitAt(d, 128, 2, 256);
    DigitAt(d, 256, 4, 1024);
    DigitAt(d, 1024, 2, 2048);
  }

  lemma CompressedJHolds(offset: int)
    requires offset % 2 == 0 && -2048 <= offset < 2048
    ensures exists bits: u32 :: CompressedJImmediate(bits) == offset
  {
    hide CompressedJImmediate, CompressedJWord, Field, Pow2, Part;
    CompressedJDigits(offset);
    var a, b, c, d, e, f, g, s: nat := Part(offset, 2, 8), Part(offset, 16, 2), Part(offset, 32, 2),
      Part(offset, 64, 2), Part(offset, 128, 2), Part(offset, 256, 4), Part(offset, 1024, 2),
      if offset < 0 then 1 else 0;
    CompressedJFields(a, b, c, d, e, f, g, s);
    CompressedJValue(CompressedJWord(a, b, c, d, e, f, g, s));
  }

  /** A compressed jump holds exactly the even offsets of 12 bits. */
  lemma CompressedJOffsets(d: int)
    ensures (exists bits: u32 :: CompressedJImmediate(bits) == d) <==> d % 2 == 0 && -2048 <= d < 2048
  {
    hide CompressedJImmediate;
    forall bits: u32
      ensures CompressedJImmediate(bits) % 2 == 0 && -2048 <= CompressedJImmediate(bits) < 2048
    {
      CompressedJRange(bits);
    }
    if d % 2 == 0 && -2048 <= d < 2048 {
      CompressedJHolds(d);
    }
  }

  lemma CompressedJRange(bits: u32)
    ensures CompressedJImmediate(bits) % 2 == 0 && -2048 <= CompressedJImmediate(bits) < 2048
  {
    hide CompressedJImmediate, Field, Pow2;
    Powers();
    CompressedJValue(bits);
  }
}
