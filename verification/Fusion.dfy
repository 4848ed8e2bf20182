/** The macro-op fusion rules, as patterns over the instructions that follow each other in
    memory. */
module Fusion {
  import opened Words
  import opened Outcomes
  import opened Pages
  import opened Instructions
  import opened Decode

  /** A decoded instruction and the number of raw instructions it stands for. */
  datatype Fused = Fused(inst: Inst, parts: nat)

  function LenSum(w: seq<Inst>): nat {
    if w == [] then 0 else w[0].len + LenSum(w[1..])
  }

  function Len2(w: seq<Inst>): nat requires |w| >= 2 { w[0].len + w[1].len }
  function Len3(w: seq<Inst>): nat requires |w| >= 3 { w[0].len + w[1].len + w[2].len }
  function Len5(w: seq<Inst>): nat requires |w| >= 5 { w[0].len + w[1].len + w[2].len + w[3].len + w[4].len }

  // ---- ADD ----

  // add a, a, b; sltu b, a, b; add a, a, c; sltu c, a, c; or b, b, c
  function RuleAdc(w: seq<Inst>): Option<Inst> {
    if |w| < 5 then None else
    var (head, next, neck, body, tail) := (w[0], w[1], w[2], w[3], w[4]);
    if && head.op.ADD? && next.op.SLTU? && neck.op.ADD? && body.op.SLTU? && tail.op.OR?
       && head.rd == head.rs1 && head.rs1 != head.rs2
       && next.rd == head.rs2 && next.rs1 == head.rs1 && next.rs2 == head.rs2
       && neck.rd == neck.rs1 && neck.rs1 == next.rs1 && neck.rs2 != head.rs1 && neck.rs2 != head.rs2
       && body.rd == body.rs2 && body.rs2 == neck.rs2 && body.rs1 == neck.rs1
       && tail.rd == tail.rs1 && tail.rs1 == head.rs2 && tail.rs2 == body.rs2
       && head.rd != ZERO && next.rd != ZERO && body.rd != ZERO
    then Some(RType(ADC, head.rd, next.rd, body.rd, Len5(w))) else None
  }

  // add r0, r1, r0; sltu r2, r0, r1; add r3, r2, r4
  predicate IsAdd3a(i0: Inst, i1: Inst, i2: Inst) {
    var (r0, r1, r2, r4) := (i0.rd, i0.rs1, i1.rd, i2.rs2);
    && i0.rs2 == r0 && i1.rs1 == r0 && i1.rs2 == r1 && i2.rs1 == r2
    && r0 != r1 && r0 != r4 && r2 != r4 && r0 != ZERO && r2 != ZERO
  }

  // add r0, r1, r2; sltu r1, r0, r1; add r3, r1, r4
  predicate IsAdd3b(i0: Inst, i1: Inst, i2: Inst) {
    var (r0, r1, r4) := (i0.rd, i0.rs1, i2.rs2);
    && i1.rd == r1 && i1.rs1 == r0 && i1.rs2 == r1 && i2.rs1 == r1
    && r0 != r1 && r0 != r4 && r1 != r4 && r0 != ZERO && r1 != ZERO
  }

  // add r0, r1, r2; sltu r3, r0, r1; add r3, r3, r4
  predicate IsAdd3c(i0: Inst, i1: Inst, i2: Inst) {
    var (r0, r1, r3, r4) := (i0.rd, i0.rs1, i1.rd, i2.rs2);
    && i1.rs1 == r0 && i1.rs2 == r1 && i2.rd == r3 && i2.rs1 == r3
    && r0 != r1 && r0 != r4 && r3 != r4 && r0 != ZERO && r3 != ZERO
  }

  function RuleAdd3(w: seq<Inst>, version: nat): Option<Inst> {
    if version < 2 || |w| < 3 then None else
    var (i0, i1, i2) := (w[0], w[1], w[2]);
    if !(i0.op.ADD? && i1.op.SLTU? && i2.op.ADD?) then None
    else if IsAdd3a(i0, i1, i2) then Some(R5Type(ADD3A, i0.rd, i0.rs1, i1.rd, i2.rd, i2.rs2, Len3(w)))
    else if IsAdd3b(i0, i1, i2) then Some(R5Type(ADD3B, i0.rd, i0.rs1, i0.rs2, i2.rd, i2.rs2, Len3(w)))
    else if IsAdd3c(i0, i1, i2) then Some(R5Type(ADD3C, i0.rd, i0.rs1, i0.rs2, i1.rd, i2.rs2, Len3(w)))
    else None
  }

  // add r0, r1, r2 (or r0, r2, r1); sltu r3, r0, r1
  function RuleAdcs(w: seq<Inst>, version: nat): Option<Inst> {
    if version < 2 || |w| < 2 || !w[0].op.ADD? || !w[1].op.SLTU? then None else
    var (i0, i1) := (w[0], w[1]);
    var (r1, r2) := if i0.rd == i0.rs1 && i0.rd != i0.rs2 then (i0.rs2, i0.rs1) else (i0.rs1, i0.rs2);
    if i1.rs1 == i0.rd && i1.rs2 == r1 && i0.rd != r1 && i0.rd != ZERO
    then Some(R4Type(ADCS, i0.rd, r1, r2, i1.rd, Len2(w))) else None
  }

  // ---- SUB ----

  // sub b, a, b; sltu d, a, ?; sub a, b, c; sltu c, b, a; or b, c, d
  // The second source of the first SLTU is compared with itself, so anything may stand there.
  function RuleSbb(w: seq<Inst>): Option<Inst> {
    if |w| < 5 then None else
    var (head, next, neck, body, tail) := (w[0], w[1], w[2], w[3], w[4]);
    if && head.op.SUB? && next.op.SLTU? && neck.op.SUB? && body.op.SLTU? && tail.op.OR?
       && head.rd == head.rs2 && head.rs1 != head.rs2
       && next.rd != head.rs1 && next.rd != head.rs2 && next.rs1 == head.rs1
       && neck.rd == head.rs1 && neck.rs1 == head.rs2
       && neck.rs2 != head.rs1 && neck.rs2 != head.rs2 && neck.rs2 != next.rd
       && body.rd == neck.rs2 && body.rs1 == head.rs2 && body.rs2 == head.rs1
       && tail.rd == head.rd && tail.rs1 == neck.rs2 && tail.rs2 == next.rd
       && head.rs1 != ZERO && head.rs2 != ZERO && neck.rs2 != ZERO && next.rd != ZERO
    then Some(R4Type(SBB, head.rs1, head.rs2, neck.rs2, next.rd, Len5(w))) else None
  }

  // sub r0, r1, r2; sltu r3, r1, r2
  function RuleSbbs(w: seq<Inst>, version: nat): Option<Inst> {
    if version < 2 || |w| < 2 || !w[0].op.SUB? || !w[1].op.SLTU? then None else
    var (i0, i1) := (w[0], w[1]);
    if i1.rs1 == i0.rs1 && i1.rs2 == i0.rs2 && i0.rd != i0.rs1 && i0.rd != i0.rs2
    then Some(R4Type(SBBS, i0.rd, i0.rs1, i0.rs2, i1.rd, Len2(w))) else None
  }

  // ---- LUI and AUIPC ----

  function RuleLui(w: seq<Inst>, version: nat): Option<Inst> {
    if |w| < 2 || !w[0].op.LUI? then None else
    var (head, next) := (w[0], w[1]);
    match next.op
    case JALR =>
      if next.rs1 == head.rd && next.rd == RA && (version >= 2 ==> next.rs1 == RA)
      then Some(UType(FAR_JUMP_ABS, RA, WrapI32(head.imm + next.imm), Len2(w))) else None
    case ADDIW =>
      if next.rs1 == next.rd && next.rd == head.rd
      then Some(UType(CUSTOM_LOAD_IMM, head.rd, WrapI32(head.imm + next.imm), Len2(w))) else None
    case _ => None
  }

  function RuleAuipc(w: seq<Inst>, pc: u64, version: nat): Option<Inst> {
    if |w| < 2 || !w[0].op.AUIPC? then None else
    var (head, next) := (w[0], w[1]);
    var sum := head.imm + next.imm;
    match next.op
    case JALR =>
      if version >= 2 then
        if next.rs1 == head.rd && next.rd == RA && next.rs1 == RA && FitsI32(sum)
        then Some(UType(FAR_JUMP_REL, RA, sum, Len2(w))) else None
      else if next.rs1 == head.rd && next.rd == RA
      then Some(UType(FAR_JUMP_REL, RA, WrapI32(sum), Len2(w))) else None
    case ADDI =>
      if version >= 2 && next.rs1 == next.rd && next.rd == head.rd
         && pc < 0x8000_0000 && FitsI32(sum) && FitsI32(sum + pc)
      then Some(UType(CUSTOM_LOAD_IMM, head.rd, sum + pc, Len2(w))) else None
    case _ => None
  }

  // ---- Multiplications and divisions ----

  /** The second opcode of a fusable pair, and what the pair becomes. */
  function WidePair(op: Op): Option<(Op, Op)> {
    match op
    case MULH => Some((MUL, WIDE_MUL))
    case MULHU => Some((MUL, WIDE_MULU))
    case MULHSU => Some((MUL, WIDE_MULSU))
    case DIV => Some((REM, WIDE_DIV))
    case DIVU => Some((REMU, WIDE_DIVU))
    case _ => None
  }

  predicate IsWide(op: Op) {
    op.WIDE_MUL? || op.WIDE_MULU? || op.WIDE_MULSU? || op.WIDE_DIV? || op.WIDE_DIVU?
  }

  function RuleWide(w: seq<Inst>): Option<Inst> {
    if |w| < 2 || WidePair(w[0].op).None? then None else
    var (head, next) := (w[0], w[1]);
    var (second, fused) := WidePair(head.op).value;
    if && next.op == second && head.rd != head.rs1 && head.rd != head.rs2
       && head.rs1 == next.rs1 && head.rs2 == next.rs2 && head.rd != next.rd
    then Some(R4Type(fused, head.rd, head.rs1, head.rs2, next.rd, Len2(w))) else None
  }

  // ---- All rules ----

  function OrElse(a: Option<Inst>, parts: nat, b: Fused): Fused {
    match a case Some(i) => Fused(i, parts) case None => b
  }

  /** What the instructions `w`, the first of them at `pc`, decode to. */
  function Fuse(w: seq<Inst>, pc: u64, version: nat): (f: Fused)
    requires |w| > 0
    ensures 1 <= f.parts <= |w|
    ensures f.parts == 1 ==> f.inst == w[0]
  {
    var raw := Fused(w[0], 1);
    match w[0].op
    case ADD => OrElse(RuleAdc(w), 5, OrElse(RuleAdd3(w, version), 3, OrElse(RuleAdcs(w, version), 2, raw)))
    case SUB => OrElse(RuleSbb(w), 5, OrElse(RuleSbbs(w, version), 2, raw))
    case LUI => OrElse(RuleLui(w, version), 2, raw)
    case AUIPC => OrElse(RuleAuipc(w, pc, version), 2, raw)
    case _ => OrElse(RuleWide(w), 2, raw)
  }

  /** The instructions from `pc` on, as far as they decode, at most `n` of them. */
  function Ahead(isa: Isa, m: Mem, pc: u64, n: nat): (w: seq<Inst>)
    ensures |w| <= n
    ensures n > 0 ==> (|w| > 0 <==> DecodeRaw(isa, m, pc).Ok?)
    decreases n
  {
    if n == 0 then []
    else
      match DecodeRaw(isa, m, pc)
      case Err(_) => []
      case Ok(i) => [i] + Ahead(isa, m, Plus(pc, i.len), n - 1)
  }

  /** `decode_mop`. A failed lookahead only shortens what the rules see. */
  function DecodeMop(isa: Isa, m: Mem, pc: u64): Result<Inst> {
    match DecodeRaw(isa, m, pc)
    case Err(e) => Err(e)
    case Ok(_) => Ok(Fuse(Ahead(isa, m, pc, 5), pc, isa.version).inst)
  }

  /** `decode` */
  function DecodeAny(isa: Isa, mop: bool, m: Mem, pc: u64): Result<Inst> {
    if mop then DecodeMop(isa, m, pc) else DecodeRaw(isa, m, pc)
  }

  // ---- The two ways in which a rule matches too much ----

  /** An SBB match whose first SLTU does not compare with the subtrahend. */
  predicate LooseSbb(w: seq<Inst>) {
    RuleSbb(w).Some? && w[1].rs2 != w[0].rs2
  }

  /** A LUI+JALR match whose immediates overflow 32 bits. */
  predicate WrappingFarJump(w: seq<Inst>, version: nat) {
    |w| >= 2 && w[0].op.LUI? && w[1].op.JALR? && RuleLui(w, version).Some? && !FitsI32(w[0].imm + w[1].imm)
  }
}
