/** Decoded instructions: opcode, register numbers, immediate and length. */
module Instructions {
  import opened Words

  type Reg = r: int | 0 <= r < 32
  type i32 = x: int | -0x8000_0000 <= x < 0x8000_0000

  const ZERO: Reg := 0
  const RA: Reg := 1
  const SP: Reg := 2
  const A0: Reg := 10
  const A7: Reg := 17

  /** The opcodes, with the register-to-register operations that play no part in fusion kept
      together as `ALU` and the read-modify-write atomics as `AMO_W` and `AMO_D`. */
  datatype Op =
    | ADD | ADDI | ADDIW | ALU(alu: nat) | DIV | DIVU | LUI | MUL | MULH | MULHSU | MULHU | OR | REM | REMU | SLTU | SUB
    | LB | LBU | LD | LH | LHU | LW | LWU | SB | SD | SH | SW
    | LR_W | SC_W | AMO_W(amo: nat) | LR_D | SC_D | AMO_D(amo: nat)
    | WIDE_MUL | WIDE_MULU | WIDE_MULSU | WIDE_DIV | WIDE_DIVU
    | ADC | SBB | ADCS | SBBS | ADD3A | ADD3B | ADD3C | CUSTOM_LOAD_UIMM | CUSTOM_LOAD_IMM
    | AUIPC | BEQ | BGE | BGEU | BLT | BLTU | BNE | EBREAK | ECALL | FENCE | FENCEI | JAL | JALR
    | FAR_JUMP_REL | FAR_JUMP_ABS
    | INVALID(code: nat)

  /** The opcode's number. */
  function Code(op: Op): nat {
    match op
    case ADD => 0x11 case ADDI => 0x12 case ADDIW => 0x13 case ALU(k) => k case DIV => 0x17 case DIVU => 0x18
    case LUI => 0x25 case MUL => 0x2a case MULH => 0x2b case MULHSU => 0x2c case MULHU => 0x2d case OR => 0x2f
    case REM => 0x31 case REMU => 0x32 case SLTU => 0x3f case SUB => 0x48
    case LB => 0x1c case LBU => 0x1e case LD => 0x20 case LH => 0x22 case LHU => 0x24 case LW => 0x27 case LWU => 0x29
    case SB => 0x35 case SD => 0x36 case SH => 0x37 case SW => 0x4a
    case LR_W => 0x4d case SC_W => 0x4e case AMO_W(k) => k case LR_D => 0x58 case SC_D => 0x59 case AMO_D(k) => k
    case WIDE_MUL => 0x8e case WIDE_MULU => 0x8f case WIDE_MULSU => 0x90 case WIDE_DIV => 0x91 case WIDE_DIVU => 0x92
    case ADC => 0x93 case SBB => 0x94 case ADCS => 0x95 case SBBS => 0x96
    case ADD3A => 0x97 case ADD3B => 0x98 case ADD3C => 0x99 case CUSTOM_LOAD_UIMM => 0x9a case CUSTOM_LOAD_IMM => 0x9b
    case AUIPC => 0x9c case BEQ => 0x9d case BGE => 0x9e case BGEU => 0x9f case BLT => 0xa0 case BLTU => 0xa1
    case BNE => 0xa2 case EBREAK => 0xa3 case ECALL => 0xa4 case FENCE => 0xa5 case FENCEI => 0xa6 case JAL => 0xa7
    case JALR => 0xa9 case FAR_JUMP_REL => 0xaa case FAR_JUMP_ABS => 0xab
    case INVALID(k) => k
  }

  datatype Inst = Inst(op: Op, rd: Reg, rs1: Reg, rs2: Reg, rs3: Reg, rs4: Reg, imm: i32, len: nat)

  function RType(op: Op, rd: Reg, rs1: Reg, rs2: Reg, len: nat): Inst {
    Inst(op, rd, rs1, rs2, 0, 0, 0, len)
  }

  function R4Type(op: Op, rd: Reg, rs1: Reg, rs2: Reg, rs3: Reg, len: nat): Inst {
    Inst(op, rd, rs1, rs2, rs3, 0, 0, len)
  }

  function R5Type(op: Op, rd: Reg, rs1: Reg, rs2: Reg, rs3: Reg, rs4: Reg, len: nat): Inst {
    Inst(op, rd, rs1, rs2, rs3, rs4, 0, len)
  }

  function UType(op: Op, rd: Reg, imm: i32, len: nat): Inst {
    Inst(op, rd, 0, 0, 0, 0, imm, len)
  }

  predicate IsSlowPath(i: Inst) {
    Code(i.op) % 0x100 < 0x10
  }

  /** The opcodes from AUIPC to FAR_JUMP_ABS end a basic block, as does anything on the slow path. */
  predicate IsBasicBlockEnd(i: Inst) {
    0x9c <= Code(i.op) <= 0xab || IsSlowPath(i)
  }

  /** Opcodes that only fusion produces. */
  predicate IsFused(op: Op) {
    || op.WIDE_MUL? || op.WIDE_MULU? || op.WIDE_MULSU? || op.WIDE_DIV? || op.WIDE_DIVU?
    || op.ADC? || op.SBB? || op.ADCS? || op.SBBS? || op.ADD3A? || op.ADD3B? || op.ADD3C?
    || op.CUSTOM_LOAD_IMM? || op.FAR_JUMP_REL? || op.FAR_JUMP_ABS?
  }

  // ---- Cycle costs ----

  function ConstantCycles(i: Inst): u64 {
    1
  }

  function EstimateCycles(i: Inst): u64 {
    match i.op
    case JALR => 3
    case LD => 2 case LW => 3 case LH => 3 case LB => 3 case LWU => 3 case LHU => 3 case LBU => 3
    case SB => 3 case SH => 3 case SW => 3 case SD => 2
    case BEQ => 3 case BGE => 3 case BGEU => 3 case BLT => 3 case BLTU => 3 case BNE => 3
    case EBREAK => 500 case ECALL => 500 case JAL => 3
    case MUL => 5 case MULH => 5 case MULHU => 5 case MULHSU => 5
    case DIV => 32 case DIVU => 32 case REM => 32 case REMU => 32
    case ALU(k) => if k == 0x2e then 5 else if k in {0x19, 0x1a, 0x33, 0x34} then 32 else 1
    case LR_W => 4 case SC_W => 4 case AMO_W(_) => 4
    case LR_D => 3 case SC_D => 3 case AMO_D(_) => 3
    case WIDE_MUL => 5 case WIDE_MULU => 5 case WIDE_MULSU => 5 case WIDE_DIV => 32 case WIDE_DIVU => 32
    case FAR_JUMP_REL => 3 case FAR_JUMP_ABS => 3
    case _ => 1
  }
}
