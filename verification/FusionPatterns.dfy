/** Which instructions fuse, written down as listings: the assembly a compiler emits, with registers
    for names. `Fuse` forms exactly what the listings say. */
module FusionPatterns {
  import opened Words
  import opened Outcomes
  import opened Pages
  import opened Instructions
  import opened Decode
  import opened Fusion
  import opened FusedRun
  import FusionProofs

  /** A line of a listing: opcode, destination, sources. */
  predicate Line(i: Inst, op: Op, rd: Reg, rs1: Reg, rs2: Reg) {
    i.op == op && i.rd == rd && i.rs1 == rs1 && i.rs2 == rs2
  }

  /** A line with an immediate. */
  predicate LineImm(i: Inst, op: Op, rd: Reg, rs1: Reg) {
    i.op == op && i.rd == rd && i.rs1 == rs1
  }

  // ---- Additions ----

  /** a += b, carry in b; a += c, carry in c; b |= c. */
  predicate AdcListing(w: seq<Inst>, a: Reg, b: Reg, c: Reg) {
    && |w| >= 5
    && Line(w[0], ADD, a, a, b)
    && Line(w[1], SLTU, b, a, b)
    && Line(w[2], ADD, a, a, c)
    && Line(w[3], SLTU, c, a, c)
    && Line(w[4], OR, b, b, c)
    && a != b && a != c && b != c && a != 0 && b != 0 && c != 0
  }

  /** r0 += r1, carry in r2; r3 = r2 + r4. */
  predicate Add3aListing(w: seq<Inst>, r0: Reg, r1: Reg, r2: Reg, r3: Reg, r4: Reg) {
    && |w| >= 3
    && Line(w[0], ADD, r0, r1, r0)
    && Line(w[1], SLTU, r2, r0, r1)
    && Line(w[2], ADD, r3, r2, r4)
    && r0 != r1 && r0 != r4 && r2 != r4 && r0 != 0 && r2 != 0
  }

  /** r0 = r1 + r2, carry in r1; r3 = r1 + r4. */
  predicate Add3bListing(w: seq<Inst>, r0: Reg, r1: Reg, r2: Reg, r3: Reg, r4: Reg) {
    && |w| >= 3
    && Line(w[0], ADD, r0, r1, r2)
    && Line(w[1], SLTU, r1, r0, r1)
    && Line(w[2], ADD, r3, r1, r4)
    && r0 != r1 && r0 != r4 && r1 != r4 && r0 != 0 && r1 != 0
  }

  /** r0 = r1 + r2, carry in r3; r3 += r4. */
  predicate Add3cListing(w: seq<Inst>, r0: Reg, r1: Reg, r2: Reg, r3: Reg, r4: Reg) {
    && |w| >= 3
    && Line(w[0], ADD, r0, r1, r2)
    && Line(w[1], SLTU, r3, r0, r1)
    && Line(w[2], ADD, r3, r3, r4)
    && r0 != r1 && r0 != r4 && r3 != r4 && r0 != 0 && r3 != 0
  }

  /** r0 = r1 + r2, carry in r3. With the sources the other way round the first of them has to be r0. */
  predicate AdcsListing(w: seq<Inst>, r0: Reg, r1: Reg, r2: Reg, r3: Reg) {
    && |w| >= 2
    && (Line(w[0], ADD, r0, r1, r2) || (Line(w[0], ADD, r0, r2, r1) && r2 == r0))
    && Line(w[1], SLTU, r3, r0, r1)
    && r0 != r1 && r0 != 0
  }

  // ---- Subtractions ----

  /** b = a - b, borrow of a and whatever x is in d; a = b - c, borrow in c; b = c | d. */
  predicate SbbListing(w: seq<Inst>, a: Reg, b: Reg, c: Reg, d: Reg, x: Reg) {
    && |w| >= 5
    && Line(w[0], SUB, b, a, b)
    && Line(w[1], SLTU, d, a, x)
    && Line(w[2], SUB, a, b, c)
    && Line(w[3], SLTU, c, b, a)
    && Line(w[4], OR, b, c, d)
    && a != b && a != c && a != d && b != c && b != d && c != d && a != 0 && b != 0 && c != 0 && d != 0
  }

  /** r0 = r1 - r2, borrow in r3. */
  predicate SbbsListing(w: seq<Inst>, r0: Reg, r1: Reg, r2: Reg, r3: Reg) {
    && |w| >= 2
    && Line(w[0], SUB, r0, r1, r2)
    && Line(w[1], SLTU, r3, r1, r2)
    && r0 != r1 && r0 != r2
  }

  // ---- Addresses and constants ----

  predicate LuiJalrListing(w: seq<Inst>, a: Reg, version: nat) {
    && |w| >= 2
    && w[0].op.LUI? && w[0].rd == a
    && LineImm(w[1], JALR, RA, a)
    && (version >= 2 ==> a == RA)
  }

  predicate LuiAddiwListing(w: seq<Inst>, a: Reg) {
    |w| >= 2 && w[0].op.LUI? && w[0].rd == a && LineImm(w[1], ADDIW, a, a)
  }

  /** From VERSION2 on only through RA, and only if the offset fits. */
  predicate AuipcJalrListing(w: seq<Inst>, a: Reg, version: nat) {
    && |w| >= 2
    && w[0].op.AUIPC? && w[0].rd == a
    && LineImm(w[1], JALR, RA, a)
    && (version >= 2 ==> a == RA && FitsI32(w[0].imm + w[1].imm))
  }

  /** The sum of pc and both immediates has to fit, and so do the steps on the way. */
  predicate AuipcAddiListing(w: seq<Inst>, a: Reg, pc: u64) {
    && |w| >= 2
    && w[0].op.AUIPC? && w[0].rd == a
    && LineImm(w[1], ADDI, a, a)
    && FitsI32(pc) && FitsI32(w[0].imm + w[1].imm) && FitsI32(w[0].imm + w[1].imm + pc)
  }

  // ---- High and low words, quotients and remainders ----

  /** `first` r0, r1, r2; `second` r3, r1, r2. */
  predicate WideListing(w: seq<Inst>, first: Op, second: Op, r0: Reg, r1: Reg, r2: Reg, r3: Reg) {
    && |w| >= 2
    && Line(w[0], first, r0, r1, r2)
    && Line(w[1], second, r3, r1, r2)
    && r0 != r1 && r0 != r2 && r0 != r3
  }

  /** The five pairs, and what each becomes. */
  predicate Pair(first: Op, second: Op, fused: Op) {
    || (first == MULH && second == MUL && fused == WIDE_MUL)
    || (first == MULHU && second == MUL && fused == WIDE_MULU)
    || (first == MULHSU && second == MUL && fused == WIDE_MULSU)
    || (first == DIV && second == REM && fused == WIDE_DIV)
    || (first == DIVU && second == REMU && fused == WIDE_DIVU)
  }

  // ---- What forms what ----

  ghost predicate IsAdc(w: seq<Inst>) {
    exists a, b, c :: AdcListing(w, a, b, c)
  }

  ghost predicate IsAdd3a(w: seq<Inst>) {
    exists r0, r1, r2, r3, r4 :: Add3aListing(w, r0, r1, r2, r3, r4)
  }

  ghost predicate IsAdd3b(w: seq<Inst>) {
    exists r0, r1, r2, r3, r4 :: Add3bListing(w, r0, r1, r2, r3, r4)
  }

  ghost predicate IsAdd3c(w: seq<Inst>) {
    exists r0, r1, r2, r3, r4 :: Add3cListing(w, r0, r1, r2, r3, r4)
  }

  function Length(w: seq<Inst>, parts: nat): nat
    requires parts <= |w|
  {
    LenSum(w[..parts])
  }

  /** Five instructions go before three, and three before two; of the three-instruction listings the
      first that fits decides. */
  ghost predicate FormsSum(w: seq<Inst>, version: nat, f: Fused) {
    || (exists a, b, c :: AdcListing(w, a, b, c) && f == Fused(RType(ADC, a, b, c, Length(w, 5)), 5))
    || (version >= 2 && FormsAdd3(w, f))
    || (version >= 2 && !IsAdc(w) && !IsAdd3a(w) && !IsAdd3b(w) && !IsAdd3c(w) && FormsAdcs(w, f))
  }

  ghost predicate FormsAdd3(w: seq<Inst>, f: Fused) {
    || (exists r0, r1, r2, r3, r4 ::
          Add3aListing(w, r0, r1, r2, r3, r4) && f == Fused(R5Type(ADD3A, r0, r1, r2, r3, r4, Length(w, 3)), 3))
    || (!IsAdd3a(w) && exists r0, r1, r2, r3, r4 ::
          Add3bListing(w, r0, r1, r2, r3, r4) && f == Fused(R5Type(ADD3B, r0, r1, r2, r3, r4, Length(w, 3)), 3))
    || (!IsAdd3a(w) && !IsAdd3b(w) && exists r0, r1, r2, r3, r4 ::
          Add3cListing(w, r0, r1, r2, r3, r4) && f == Fused(R5Type(ADD3C, r0, r1, r2, r3, r4, Length(w, 3)), 3))
  }

  ghost predicate FormsAdcs(w: seq<Inst>, f: Fused) {
    exists r0, r1, r2, r3 ::
      AdcsListing(w, r0, r1, r2, r3) && f == Fused(R4Type(ADCS, r0, r1, r2, r3, Length(w, 2)), 2)
  }

  ghost predicate FormsDifference(w: seq<Inst>, version: nat, f: Fused) {
    || (exists a, b, c, d, x ::
          SbbListing(w, a, b, c, d, x) && f == Fused(R4Type(SBB, a, b, c, d, Length(w, 5)), 5))
    || (version >= 2 && exists r0, r1, r2, r3 ::
          SbbsListing(w, r0, r1, r2, r3) && f == Fused(R4Type(SBBS, r0, r1, r2, r3, Length(w, 2)), 2))
  }

  ghost predicate FormsAddress(w: seq<Inst>, pc: u64, version: nat, f: Fused) {
    || (exists a ::
          LuiJalrListing(w, a, version)
          && f == Fused(UType(FAR_JUMP_ABS, RA, WrapI32(w[0].imm + w[1].imm), Length(w, 2)), 2))
    || (exists a ::
          LuiAddiwListing(w, a)
          && f == Fused(UType(CUSTOM_LOAD_IMM, a, WrapI32(w[0].imm + w[1].imm), Length(w, 2)), 2))
    || (exists a ::
          AuipcJalrListing(w, a, version)
          && f == Fused(UType(FAR_JUMP_REL, RA, WrapI32(w[0].imm + w[1].imm), Length(w, 2)), 2))
    || (version >= 2 && exists a ::
          AuipcAddiListing(w, a, pc)
          && f == Fused(UType(CUSTOM_LOAD_IMM, a, w[0].imm + w[1].imm + pc, Length(w, 2)), 2))
  }

  ghost predicate FormsWide(w: seq<Inst>, f: Fused) {
    exists first, second, fused, r0, r1, r2, r3 ::
      && Pair(first, second, fused)
      && WideListing(w, first, second, r0, r1, r2, r3)
      && f == Fused(R4Type(fused, r0, r1, r2, r3, Length(w, 2)), 2)
  }

  ghost predicate Forms(w: seq<Inst>, pc: u64, version: nat, f: Fused) {
    FormsSum(w, version, f) || FormsDifference(w, version, f) || FormsAddress(w, pc, version, f) || FormsWide(w, f)
  }

  lemma Lengths(w: seq<Inst>)
    ensures |w| >= 2 ==> Length(w, 2) == Len2(w)
    ensures |w| >= 3 ==> Length(w, 3) == Len3(w)
    ensures |w| >= 5 ==> Length(w, 5) == Len5(w)
  {
    if |w| >= 2 {
      assert w[..2][1..] == [w[1]];
      assert LenSum([w[1]]) == w[1].len;
    }
    if |w| >= 3 {
      var t := w[..3][1..];
      assert t[1..] == [w[2]];
      assert LenSum([w[2]]) == w[2].len;
      assert LenSum(t) == w[1].len + w[2].len;
    }
    if |w| >= 5 {
      var t := w[..5][1..];
      var u := t[1..];
      var v := u[1..];
      assert v[1..] == [w[4]];
      assert LenSum([w[4]]) == w[4].len;
      assert LenSum(v) == w[3].len + w[4].len;
      assert LenSum(u) == w[2].len + LenSum(v);
      assert LenSum(t) == w[1].len + LenSum(u);
    }
  }

  // ---- Rule by rule ----

  lemma AdcExact(w: seq<Inst>)
    ensures RuleAdc(w).Some? <==> IsAdc(w)
    ensures forall a, b, c :: AdcListing(w, a, b, c) ==> RuleAdc(w) == Some(RType(ADC, a, b, c, Length(w, 5)))
    ensures IsAdc(w) ==> !IsAdd3a(w) && !IsAdd3b(w) && !IsAdd3c(w)
  {
    hide Length;
    Lengths(w);
    if RuleAdc(w).Some? {
      assert AdcListing(w, w[0].rd, w[0].rs2, w[2].rs2);
    }
  }

  predicate AddSltuAdd(w: seq<Inst>) {
    |w| >= 3 && w[0].op.ADD? && w[1].op.SLTU? && w[2].op.ADD?
  }

  lemma Add3aExact(w: seq<Inst>)
    ensures AddSltuAdd(w) && Fusion.IsAdd3a(w[0], w[1], w[2]) <==> IsAdd3a(w)
    ensures IsAdd3a(w) ==> |w| >= 3 && Add3aListing(w, w[0].rd, w[0].rs1, w[1].rd, w[2].rd, w[2].rs2)
  {
    if |w| >= 3 {
      assert Add3aListing(w, w[0].rd, w[0].rs1, w[1].rd, w[2].rd, w[2].rs2)
        <==> w[0].op.ADD? && w[1].op.SLTU? && w[2].op.ADD? && Fusion.IsAdd3a(w[0], w[1], w[2]);
    }
  }

  lemma Add3bExact(w: seq<Inst>)
    ensures AddSltuAdd(w) && Fusion.IsAdd3b(w[0], w[1], w[2]) <==> IsAdd3b(w)
    ensures IsAdd3b(w) ==> |w| >= 3 && Add3bListing(w, w[0].rd, w[0].rs1, w[0].rs2, w[2].rd, w[2].rs2)
  {
    if |w| >= 3 {
      assert Add3bListing(w, w[0].rd, w[0].rs1, w[0].rs2, w[2].rd, w[2].rs2)
        <==> w[0].op.ADD? && w[1].op.SLTU? && w[2].op.ADD? && Fusion.IsAdd3b(w[0], w[1], w[2]);
    }
  }

  lemma Add3cExact(w: seq<Inst>)
    ensures AddSltuAdd(w) && Fusion.IsAdd3c(w[0], w[1], w[2]) <==> IsAdd3c(w)
    ensures IsAdd3c(w) ==> |w| >= 3 && Add3cListing(w, w[0].rd, w[0].rs1, w[0].rs2, w[1].rd, w[2].rs2)
  {
    if |w| >= 3 {
      assert Add3cListing(w, w[0].rd, w[0].rs1, w[0].rs2, w[1].rd, w[2].rs2)
        <==> w[0].op.ADD? && w[1].op.SLTU? && w[2].op.ADD? && Fusion.IsAdd3c(w[0], w[1], w[2]);
    }
  }

  lemma Add3Forms(w: seq<Inst>, version: nat, f: Fused)
    requires version >= 2 && FormsAdd3(w, f)
    ensures RuleAdd3(w, version) == Some(f.inst) && f.parts == 3
  {
    hide Length, Fusion.IsAdd3a, Fusion.IsAdd3b, Fusion.IsAdd3c;
    Lengths(w);
    Add3aExact(w);
    Add3bExact(w);
    Add3cExact(w);
  }

  lemma Add3Applies(w: seq<Inst>, version: nat)
    ensures RuleAdd3(w, version).Some? <==> version >= 2 && (IsAdd3a(w) || IsAdd3b(w) || IsAdd3c(w))
  {
    hide IsAdd3a, IsAdd3b, IsAdd3c, Fusion.IsAdd3a, Fusion.IsAdd3b, Fusion.IsAdd3c;
    Add3aExact(w);
    Add3bExact(w);
    Add3cExact(w);
  }

  lemma Add3HasForm(w: seq<Inst>) returns (f: Fused)
    requires IsAdd3a(w) || IsAdd3b(w) || IsAdd3c(w)
    ensures FormsAdd3(w, f)
  {
    hide FormsAdd3, Add3aListing, Add3bListing, Add3cListing, IsAdd3a, IsAdd3b, IsAdd3c;
    Add3aExact(w);
    Add3bExact(w);
    Add3cExact(w);
    if IsAdd3a(w) {
      f := Add3aHasForm(w, w[0].rd, w[0].rs1, w[1].rd, w[2].rd, w[2].rs2);
    } else if IsAdd3b(w) {
      f := Add3bHasForm(w, w[0].rd, w[0].rs1, w[0].rs2, w[2].rd, w[2].rs2);
    } else {
      f := Add3cHasForm(w, w[0].rd, w[0].rs1, w[0].rs2, w[1].rd, w[2].rs2);
    }
  }

  lemma Add3aHasForm(w: seq<Inst>, r0: Reg, r1: Reg, r2: Reg, r3: Reg, r4: Reg) returns (f: Fused)
    requires Add3aListing(w, r0, r1, r2, r3, r4)
    ensures FormsAdd3(w, f)
  {
    hide Length, Line, IsAdd3a, IsAdd3b;
    f := Fused(R5Type(ADD3A, r0, r1, r2, r3, r4, Length(w, 3)), 3);
  }

  lemma Add3bHasForm(w: seq<Inst>, r0: Reg, r1: Reg, r2: Reg, r3: Reg, r4: Reg) returns (f: Fused)
    requires Add3bListing(w, r0, r1, r2, r3, r4) && !IsAdd3a(w)
    ensures FormsAdd3(w, f)
  {
    hide Length, Line, IsAdd3a, IsAdd3b;
    f := Fused(R5Type(ADD3B, r0, r1, r2, r3, r4, Length(w, 3)), 3);
  }

  lemma Add3cHasForm(w: seq<Inst>, r0: Reg, r1: Reg, r2: Reg, r3: Reg, r4: Reg) returns (f: Fused)
    requires Add3cListing(w, r0, r1, r2, r3, r4) && !IsAdd3a(w) && !IsAdd3b(w)
    ensures FormsAdd3(w, f)
  {
    hide Length, Line, IsAdd3a, IsAdd3b;
    f := Fused(R5Type(ADD3C, r0, r1, r2, r3, r4, Length(w, 3)), 3);
  }

  lemma Add3IsFormed(w: seq<Inst>, version: nat)
    ensures RuleAdd3(w, version).Some? <==> version >= 2 && (IsAdd3a(w) || IsAdd3b(w) || IsAdd3c(w))
    ensures RuleAdd3(w, version).Some? ==> FormsAdd3(w, Fused(RuleAdd3(w, version).value, 3))
  {
    hide RuleAdd3, FormsAdd3, IsAdd3a, IsAdd3b, IsAdd3c;
    Add3Applies(w, version);
    if RuleAdd3(w, version).Some? {
      var f := Add3HasForm(w);
      Add3Forms(w, version, f);
    }
  }

  lemma AdcsExact(w: seq<Inst>, version: nat)
    ensures RuleAdcs(w, version).Some? ==> version >= 2 && FormsAdcs(w, Fused(RuleAdcs(w, version).value, 2))
    ensures forall f :: version >= 2 && FormsAdcs(w, f) ==> RuleAdcs(w, version) == Some(f.inst) && f.parts == 2
  {
    hide Length;
    Lengths(w);
    if RuleAdcs(w, version).Some? {
      var i := RuleAdcs(w, version).value;
      assert AdcsListing(w, i.rd, i.rs1, i.rs2, i.rs3);
    }
  }

  lemma SbbExact(w: seq<Inst>)
    ensures RuleSbb(w).Some? ==> exists a, b, c, d, x :: SbbListing(w, a, b, c, d, x)
    ensures forall a, b, c, d, x :: SbbListing(w, a, b, c, d, x) ==>
              RuleSbb(w) == Some(R4Type(SBB, a, b, c, d, Length(w, 5)))
  {
    hide Length;
    Lengths(w);
    if RuleSbb(w).Some? {
      assert SbbListing(w, w[0].rs1, w[0].rs2, w[2].rs2, w[1].rd, w[1].rs2);
    }
  }

  lemma SbbsExact(w: seq<Inst>, version: nat)
    ensures RuleSbbs(w, version).Some? ==> version >= 2 && exists r0, r1, r2, r3 :: SbbsListing(w, r0, r1, r2, r3)
    ensures forall r0, r1, r2, r3 :: version >= 2 && SbbsListing(w, r0, r1, r2, r3) ==>
              RuleSbbs(w, version) == Some(R4Type(SBBS, r0, r1, r2, r3, Length(w, 2))) && RuleSbb(w).None?
  {
    hide Length;
    Lengths(w);
    if RuleSbbs(w, version).Some? {
      assert SbbsListing(w, w[0].rd, w[0].rs1, w[0].rs2, w[1].rd);
    }
  }

  lemma FittingSum(x: int)
    ensures FitsI32(x) ==> WrapI32(x) == x
  {
  }

  lemma LuiExact(w: seq<Inst>, pc: u64, version: nat, f: Fused)
    requires |w| > 0 && w[0].op.LUI?
    ensures FormsAddress(w, pc, version, f) <==> RuleLui(w, version).Some? && f == Fused(RuleLui(w, version).value, 2)
  {
    hide Length, WrapI32;
    Lengths(w);
    if |w| >= 2 {
      var a := w[0].rd;
      assert LuiJalrListing(w, a, version) ==> w[1].op.JALR?;
      assert LuiAddiwListing(w, a) ==> w[1].op.ADDIW?;
    }
  }

  lemma AuipcExact(w: seq<Inst>, pc: u64, version: nat, f: Fused)
    requires |w| > 0 && w[0].op.AUIPC?
    ensures FormsAddress(w, pc, version, f)
       <==> RuleAuipc(w, pc, version).Some? && f == Fused(RuleAuipc(w, pc, version).value, 2)
  {
    hide Length, WrapI32;
    Lengths(w);
    if |w| >= 2 {
      FittingSum(w[0].imm + w[1].imm);
      var a := w[0].rd;
      assert AuipcJalrListing(w, a, version) ==> w[1].op.JALR?;
      assert AuipcAddiListing(w, a, pc) ==> w[1].op.ADDI?;
    }
  }

  lemma WideExact(w: seq<Inst>, f: Fused)
    ensures FormsWide(w, f) <==> RuleWide(w).Some? && f == Fused(RuleWide(w).value, 2)
  {
    hide Length;
    Lengths(w);
    if RuleWide(w).Some? {
      var (second, fused) := WidePair(w[0].op).value;
      assert Pair(w[0].op, second, fused);
      assert WideListing(w, w[0].op, second, w[0].rd, w[0].rs1, w[0].rs2, w[1].rd);
    }
  }

  // ---- All rules ----

  lemma SumExact(w: seq<Inst>, pc: u64, version: nat, f: Fused)
    requires |w| > 0 && w[0].op.ADD?
    ensures FormsSum(w, version, f) <==> f == Fuse(w, pc, version) && f.parts > 1
  {
    hide Length, RuleAdc, RuleAdd3, RuleAdcs, FormsAdd3, FormsAdcs, IsAdd3a, IsAdd3b, IsAdd3c, AdcListing;
    AdcExact(w);
    Add3IsFormed(w, version);
    AdcsExact(w, version);
    if version >= 2 && FormsAdd3(w, f) {
      Add3Forms(w, version, f);
    }
  }

  lemma DifferenceExact(w: seq<Inst>, pc: u64, version: nat, f: Fused)
    requires |w| > 0 && w[0].op.SUB?
    ensures FormsDifference(w, version, f) <==> f == Fuse(w, pc, version) && f.parts > 1
  {
    hide Length, RuleSbb, RuleSbbs, SbbListing, SbbsListing;
    SbbExact(w);
    SbbsExact(w, version);
  }

  /** A listing decides which opcode comes first. */
  lemma Heads(w: seq<Inst>, pc: u64, version: nat, f: Fused)
    ensures FormsSum(w, version, f) ==> |w| > 0 && w[0].op.ADD?
    ensures FormsDifference(w, version, f) ==> |w| > 0 && w[0].op.SUB?
    ensures FormsAddress(w, pc, version, f) ==> |w| > 0 && (w[0].op.LUI? || w[0].op.AUIPC?)
    ensures FormsWide(w, f) ==> |w| > 0 && WidePair(w[0].op).Some?
  {
    hide Length, WrapI32;
  }

  /** Fusing forms exactly what the listings say, and leaves every other window alone. */
  lemma FuseExact(w: seq<Inst>, pc: u64, version: nat, f: Fused)
    requires |w| > 0
    ensures Forms(w, pc, version, f) <==> f == Fuse(w, pc, version) && f.parts > 1
  {
    hide Length, RuleAdc, RuleAdd3, RuleAdcs, RuleSbb, RuleSbbs, RuleLui, RuleAuipc, RuleWide, FormsSum,
      FormsDifference, FormsAddress, FormsWide;
    Heads(w, pc, version, f);
    WideExact(w, f);
    if w[0].op.ADD? {
      SumExact(w, pc, version, f);
    } else if w[0].op.SUB? {
      DifferenceExact(w, pc, version, f);
    } else if w[0].op.LUI? {
      LuiExact(w, pc, version, f);
    } else if w[0].op.AUIPC? {
      AuipcExact(w, pc, version, f);
    } else {
      NoWide(w);
    }
  }

  lemma NoWide(w: seq<Inst>)
    ensures RuleWide(w).Some? ==> |w| > 0 && WidePair(w[0].op).Some?
  {
  }

  // ---- In memory ----

  /** The instructions from `pc` on are `w`: five of them, or as many as decode. */
  ghost predicate Holds(isa: Isa, m: Mem, pc: u64, w: seq<Inst>, n: nat) {
    && |w| <= n
    && Decodes(isa, m, pc, w)
    && (|w| < n ==> DecodeRaw(isa, m, Plus(pc, LenSum(w))).Err?)
  }

  lemma {:induction false} HoldsExactly(isa: Isa, m: Mem, pc: u64, w: seq<Inst>, n: nat)
    ensures Holds(isa, m, pc, w, n) <==> w == Ahead(isa, m, pc, n)
    decreases n
  {
    hide DecodeRaw;
    if n > 0 && DecodeRaw(isa, m, pc).Ok? {
      var i := DecodeRaw(isa, m, pc).value;
      var t := if w == [] then [] else w[1..];
      HoldsExactly(isa, m, Plus(pc, i.len), t, n - 1);
      if w != [] {
        FusionProofs.PcSum(pc, w[0].len, LenSum(t));
        assert w == [w[0]] + t;
      } else {
        assert Plus(pc, 0) == pc;
      }
    } else {
      assert w == [] || n == 0 || !Decodes(isa, m, pc, w);
      assert Plus(pc, 0) == pc;
    }
  }

  /** Without fusion the decoder gives the first of the instructions in memory; with it, what the
      listings form of them, and the first where no listing fits. */
  lemma MopExact(isa: Isa, m: Mem, pc: u64, w: seq<Inst>, i: Inst)
    requires Holds(isa, m, pc, w, 5) && w != []
    ensures DecodeAny(isa, false, m, pc) == Ok(w[0])
    ensures DecodeAny(isa, true, m, pc) == Ok(i) <==>
            || (exists f :: Forms(w, pc, isa.version, f) && f.inst == i)
            || ((forall f :: !Forms(w, pc, isa.version, f)) && i == w[0])
  {
    hide DecodeRaw, Forms, Fuse, Ahead;
    HoldsExactly(isa, m, pc, w, 5);
    var g := Fuse(w, pc, isa.version);
    forall f
      ensures Forms(w, pc, isa.version, f) <==> f == g && f.parts > 1
    {
      FuseExact(w, pc, isa.version, f);
    }
  }

  // ---- Two additions with carry, and one the decoder does not see ----

  /** a += b with its carry fuses, whichever way round the sources of the addition are. */
  lemma CarryFuses(w: seq<Inst>, pc: u64, version: nat, a: Reg, b: Reg, carry: Reg)
    requires version >= 2 && |w| == 2 && a != b && a != 0
    requires Line(w[0], ADD, a, a, b) || Line(w[0], ADD, a, b, a)
    requires Line(w[1], SLTU, carry, a, b)
    ensures Fuse(w, pc, version) == Fused(R4Type(ADCS, a, b, a, carry, w[0].len + w[1].len), 2)
  {
    hide Length;
    Lengths(w);
    assert AdcsListing(w, a, b, a, carry);
    var f := Fused(R4Type(ADCS, a, b, a, carry, w[0].len + w[1].len), 2);
    assert FormsSum(w, version, f);
    FuseExact(w, pc, version, f);
  }

  /** The second order of sources is only seen where the destination is one of them: add r0, r2, r1
      with sltu r3, r0, r1 stays as it is for three registers, although it is the same sum. */
  lemma OtherOrderStays(w: seq<Inst>, pc: u64, version: nat, r0: Reg, r1: Reg, r2: Reg, r3: Reg)
    requires |w| == 2 && r0 != r1 && r0 != r2 && r1 != r2
    requires Line(w[0], ADD, r0, r2, r1) && Line(w[1], SLTU, r3, r0, r1)
    ensures Fuse(w, pc, version) == Fused(w[0], 1)
  {
  }
}
