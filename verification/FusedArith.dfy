/** What the fused arithmetic instructions compute, as numbers. */
module FusedArith {
  import opened Words
  import opened Instructions
  import opened Arith
  import opened Exec

  // ---- Carry and borrow ----

  /** Three registers that hold what is written to them, none in another's way. */
  predicate Apart(a: Reg, b: Reg, c: Reg) {
    a != 0 && b != 0 && c != 0 && a != b && a != c && b != c
  }

  /** Two sums that may carry, at most one of which does. */
  lemma CarryOut(a: u64, b: u64, c: u64)
    requires c <= 1
    ensures var s := Plus(a, b);
            var t := Plus(s, c);
            && a + b + c == t + 0x1_0000_0000_0000_0000 * FlagWord(s < b || t < c)
  {
  }

  lemma BorrowOut(a: u64, b: u64, c: u64)
    requires c <= 1
    ensures var s := Minus(a, b);
            var t := Minus(s, c);
            && a - b - c == t - 0x1_0000_0000_0000_0000 * FlagWord(s < t || a < s)
  {
  }

  /** `sum` and the carry out of it are what adding gives. */
  predicate Adds(a: int, b: int, c: int, sum: int, carry: int) {
    a + b + c == sum + 0x1_0000_0000_0000_0000 * carry
  }

  predicate Subtracts(a: int, b: int, c: int, difference: int, borrow: int) {
    a - b - c == difference - 0x1_0000_0000_0000_0000 * borrow
  }

  /** ADC: rd and rs1 are added with the carry in rs2; the sum is left in rd and the carry in rs1. */
  lemma AdcExact(r: RegFile, i: Inst)
    requires Apart(i.rd, i.rs1, i.rs2) && r[i.rs2] <= 1
    ensures Adds(r[i.rd], r[i.rs1], r[i.rs2], Adc(r, i)[i.rd], Adc(r, i)[i.rs1]) && Adc(r, i)[i.rs1] <= 1
  {
    hide Or64, Plus;
    var a, b, c := r[i.rd], r[i.rs1], r[i.rs2];
    var s := Plus(a, b);
    var t := Plus(s, c);
    CarryOut(a, b, c);
    OrOfFlags(s < b, t < c);
    var r' := Adc(r, i);
    assert r'[i.rd] == t && r'[i.rs1] == Or64(FlagWord(s < b), FlagWord(t < c));
  }

  /** SBB: rs1 and the borrow in rs2 are subtracted from rd; the difference is left in rd and the
      borrow in rs1. */
  lemma SbbExact(r: RegFile, i: Inst)
    requires Apart(i.rd, i.rs1, i.rs2) && Apart(i.rd, i.rs1, i.rs3) && i.rs2 != i.rs3 && r[i.rs2] <= 1
    ensures Subtracts(r[i.rd], r[i.rs1], r[i.rs2], Sbb(r, i)[i.rd], Sbb(r, i)[i.rs1]) && Sbb(r, i)[i.rs1] <= 1
  {
    hide Or64, Minus;
    var a, b, c := r[i.rd], r[i.rs1], r[i.rs2];
    var s := Minus(a, b);
    var t := Minus(s, c);
    BorrowOut(a, b, c);
    OrOfFlags(s < t, a < s);
    var r' := Sbb(r, i);
    assert r'[i.rd] == t && r'[i.rs1] == Or64(FlagWord(s < t), FlagWord(a < s));
  }

  /** With a carry-in above 1 both sums can carry, and ADC then loses one of the two: its result is
      exact exactly when they do not. */
  lemma AdcLosesCarry(r: RegFile, i: Inst)
    requires Apart(i.rd, i.rs1, i.rs2)
    ensures Adds(r[i.rd], r[i.rs1], r[i.rs2], Adc(r, i)[i.rd], Adc(r, i)[i.rs1])
       <==> Fits65(r[i.rd], r[i.rs1], r[i.rs2])
  {
    hide Or64, Plus;
    var a, b, c := r[i.rd], r[i.rs1], r[i.rs2];
    var s := Plus(a, b);
    var t := Plus(s, c);
    OrOfFlags(s < b, t < c);
    var r' := Adc(r, i);
    assert r'[i.rd] == t && r'[i.rs1] == FlagWord(s < b || t < c);
    SumCarries(a, b);
    SumCarries(s, c);
  }

  predicate Fits65(a: int, b: int, c: int) {
    a + b + c < 0x2_0000_0000_0000_0000
  }

  lemma SumCarries(a: u64, b: u64)
    ensures a + b == Plus(a, b) + 0x1_0000_0000_0000_0000 * FlagWord(Plus(a, b) < b)
  {
  }

  // ---- Big integers, least significant limb first ----

  function Big(limbs: seq<u64>): nat {
    if limbs == [] then 0 else limbs[0] + 0x1_0000_0000_0000_0000 * Big(limbs[1..])
  }

  /** 2^(64 n), the weight of a carry out of `n` limbs. */
  function Weight(n: nat): nat {
    if n == 0 then 1 else 0x1_0000_0000_0000_0000 * Weight(n - 1)
  }

  function Carried(carry: u64, n: nat): nat {
    if carry == 0 then 0 else Weight(n)
  }

  function Operands(r: RegFile, i: Inst, a: u64, b: u64, c: u64): RegFile {
    Upd(Upd(Upd(r, i.rd, a), i.rs1, b), i.rs2, c)
  }

  /** One ADC per pair of limbs, the carry handed on. */
  function AddLimbs(r: RegFile, i: Inst, x: seq<u64>, y: seq<u64>, carry: u64): (seq<u64>, u64)
    requires |x| == |y|
    decreases |x|
  {
    if x == [] then ([], carry)
    else
      var r' := Adc(Operands(r, i, x[0], y[0], carry), i);
      var (rest, out) := AddLimbs(r', i, x[1..], y[1..], r'[i.rs1]);
      ([r'[i.rd]] + rest, out)
  }

  function SubLimbs(r: RegFile, i: Inst, x: seq<u64>, y: seq<u64>, borrow: u64): (seq<u64>, u64)
    requires |x| == |y|
    decreases |x|
  {
    if x == [] then ([], borrow)
    else
      var r' := Sbb(Operands(r, i, x[0], y[0], borrow), i);
      var (rest, out) := SubLimbs(r', i, x[1..], y[1..], r'[i.rs1]);
      ([r'[i.rd]] + rest, out)
  }

  lemma CarriedStep(carry: u64, n: nat)
    ensures Carried(carry, n + 1) == 0x1_0000_0000_0000_0000 * Carried(carry, n)
  {
  }

  /** Chained over limbs of any number, ADC adds big integers. */
  lemma {:induction false} AddChain(r: RegFile, i: Inst, x: seq<u64>, y: seq<u64>, carry: u64)
    requires |x| == |y| && Apart(i.rd, i.rs1, i.rs2) && carry <= 1
    ensures var (sum, out) := AddLimbs(r, i, x, y, carry);
            && |sum| == |x| && out <= 1
            && Big(x) + Big(y) + carry == Big(sum) + Carried(out, |x|)
    decreases |x|
  {
    hide Adc;
    if x != [] {
      var r1 := Operands(r, i, x[0], y[0], carry);
      AdcExact(r1, i);
      var r' := Adc(r1, i);
      AddChain(r', i, x[1..], y[1..], r'[i.rs1]);
      var (rest, out) := AddLimbs(r', i, x[1..], y[1..], r'[i.rs1]);
      CarriedStep(out, |x| - 1);
      assert ([r'[i.rd]] + rest)[1..] == rest;
    }
  }

  /** Chained over limbs of any number, SBB subtracts big integers. */
  lemma {:induction false} SubChain(r: RegFile, i: Inst, x: seq<u64>, y: seq<u64>, borrow: u64)
    requires |x| == |y| && borrow <= 1
    requires Apart(i.rd, i.rs1, i.rs2) && Apart(i.rd, i.rs1, i.rs3) && i.rs2 != i.rs3
    ensures var (difference, out) := SubLimbs(r, i, x, y, borrow);
            && |difference| == |x| && out <= 1
            && Big(x) - Big(y) - borrow == Big(difference) - Carried(out, |x|)
    decreases |x|
  {
    hide Sbb;
    if x != [] {
      var r1 := Operands(r, i, x[0], y[0], borrow);
      SbbExact(r1, i);
      var r' := Sbb(r1, i);
      SubChain(r', i, x[1..], y[1..], r'[i.rs1]);
      var (rest, out) := SubLimbs(r', i, x[1..], y[1..], r'[i.rs1]);
      CarriedStep(out, |x| - 1);
      assert ([r'[i.rd]] + rest)[1..] == rest;
    }
  }

  // ---- Wide results ----

  lemma WideWrites(r: RegFile, i: Inst, high: u64, low: u64)
    requires i.rd != 0 && i.rs3 != 0 && i.rd != i.rs3
    ensures Wide(r, i, high, low)[i.rd] == high && Wide(r, i, high, low)[i.rs3] == low
  {
  }

  /** `high` and `low` are the two halves of the exact product, signed as the opcode says. */
  predicate IsProduct(op: Op, a: u64, b: u64, high: u64, low: u64) {
    var (x: int, y: int, h: int) := (
      if op.WIDE_MULU? then a else Signed(a),
      if op.WIDE_MUL? then Signed(b) else b,
      if op.WIDE_MULU? then high else Signed(high));
    h * 0x1_0000_0000_0000_0000 + low == x * y
  }

  predicate Restores(a: u64, b: u64, quotient: u64, remainder: u64) {
    Wrap(quotient * b + remainder) == a
  }

  /** The wide multiplications leave the exact 128-bit product in rd and rs3, even where these are
      the source registers. */
  lemma WideMultiplications(r: RegFile, i: Inst)
    requires i.rd != 0 && i.rs3 != 0 && i.rd != i.rs3
    requires i.op.WIDE_MUL? || i.op.WIDE_MULU? || i.op.WIDE_MULSU?
    ensures IsProduct(i.op, r[i.rs1], r[i.rs2], FusedRegs(i, r)[i.rd], FusedRegs(i, r)[i.rs3])
  {
    hide MulHighSigned, MulHighUnsigned, MulHighSignedUnsigned, Mul, Signed, Wide;
    var a, b := r[i.rs1], r[i.rs2];
    if i.op.WIDE_MUL? {
      WideWrites(r, i, MulHighSigned(a, b), Mul(a, b));
      WideMulSigned(a, b);
    } else if i.op.WIDE_MULU? {
      WideWrites(r, i, MulHighUnsigned(a, b), Mul(a, b));
      WideMulUnsigned(a, b);
    } else {
      WideWrites(r, i, MulHighSignedUnsigned(a, b), Mul(a, b));
      WideMulSignedUnsigned(a, b);
    }
  }

  /** The wide divisions leave a quotient and a remainder that restore the dividend modulo 2^64,
      whatever the divisor, and are the ones that zero divisors, overflow and truncation ask for. */
  lemma WideDivisions(r: RegFile, i: Inst)
    requires i.rd != 0 && i.rs3 != 0 && i.rd != i.rs3
    requires i.op.WIDE_DIV? || i.op.WIDE_DIVU?
    ensures Restores(r[i.rs1], r[i.rs2], FusedRegs(i, r)[i.rd], FusedRegs(i, r)[i.rs3])
    ensures if i.op.WIDE_DIV? then DividesSigned(r[i.rs1], r[i.rs2], FusedRegs(i, r)[i.rd], FusedRegs(i, r)[i.rs3])
            else DividesUnsigned(r[i.rs1], r[i.rs2], FusedRegs(i, r)[i.rd], FusedRegs(i, r)[i.rs3])
  {
    hide DivSigned, DivUnsigned, RemSigned, RemUnsigned, Wide, DividesSigned, DividesUnsigned;
    var a, b := r[i.rs1], r[i.rs2];
    SignedQuotient(a, b);
    UnsignedQuotient(a, b);
    DivisionLaw(a, b);
    if i.op.WIDE_DIV? {
      WideWrites(r, i, DivSigned(a, b), RemSigned(a, b));
    } else {
      WideWrites(r, i, DivUnsigned(a, b), RemUnsigned(a, b));
    }
  }
}
