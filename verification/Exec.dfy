/** What one instruction does to the machine: `execute`, with its error exits. */
module Exec {
  import opened Words
  import opened Outcomes
  import opened Pages
  import opened Arith
  import opened Instructions

  /** 32 registers, of which x0 reads as zero. */
  type RegFile = r: seq<u64> | |r| == 32 && r[0] == 0 witness seq(32, _ => 0)

  datatype State = State(regs: RegFile, pc: u64, mem: Mem, cycles: u64, maxCycles: u64, running: bool, exitCode: int)

  /** What a system call answers. One that fails may have changed registers and memory before. */
  datatype SysResult =
    | Unprocessed
    | Processed(regs: RegFile, mem: Mem, addedCycles: nat)
    | SysFailed(regs: RegFile, mem: Mem, error: Error)

  /** What the interpreter is given from outside: the value computed by the plain register
      operations, the value stored by the atomic ones, and the system calls. */
  datatype Env = Env(
    alu: (Inst, u64, u64) -> u64,
    amo: (Inst, u64, u64) -> u64,
    syscalls: seq<(RegFile, Mem, u64) -> SysResult>)

  /** The machine after a step, and the error that stopped it, if any. */
  datatype Outcome = Outcome(st: State, err: Option<Error>)

  /** `update_register`: writes to x0 are ignored. */
  function Upd(regs: RegFile, i: Reg, v: u64): RegFile {
    if i == 0 then regs else regs[i := v]
  }

  // ---- How a handler ends: `execute` has put the next instruction into next_pc and commits
  //      whatever is there, error or not ----

  function Next(i: Inst, s: State): u64 {
    Plus(s.pc, i.len)
  }

  function Write(i: Inst, s: State, rd: Reg, v: u64): Outcome {
    Outcome(s.(regs := Upd(s.regs, rd, v), pc := Next(i, s)), None)
  }

  function Writes(i: Inst, s: State, regs: RegFile): Outcome {
    Outcome(s.(regs := regs, pc := Next(i, s)), None)
  }

  function Jump(s: State, regs: RegFile, target: u64): Outcome {
    Outcome(s.(regs := regs, pc := target), None)
  }

  function Failing(i: Inst, s: State, e: Error): Outcome {
    Outcome(s.(pc := Next(i, s)), Some(e))
  }

  // ---- Memory instructions ----

  function Address(i: Inst, s: State): u64 {
    Plus(s.regs[i.rs1], i.imm)
  }

  function ExecLoad(i: Inst, s: State, n: nat, signed: bool): Outcome
    requires n <= 8
  {
    match Load(s.mem, Address(i, s), n)
    case Err(e) => Failing(i, s, e)
    case Ok(v) => Write(i, s, i.rd, if signed then SignExtend(v, n) else v)
  }

  function ExecStore(i: Inst, s: State, n: nat): Outcome {
    match StoreWord(s.mem, Address(i, s), s.regs[i.rs2], n)
    case (m, Fail(e)) => Failing(i, s, e)
    case (m, Pass) => Writes(i, s.(mem := m), s.regs)
  }

  function LoadReserved(i: Inst, s: State, n: nat): Outcome
    requires n <= 8
  {
    var addr := s.regs[i.rs1];
    match Load(s.mem, addr, n)
    case Err(e) => Failing(i, s, e)
    case Ok(v) => Write(i, s.(mem := s.mem.(lr := addr)), i.rd, SignExtend(v, n))
  }

  /** Loads and stores even when the reservation is lost. */
  function StoreConditional(i: Inst, s: State, n: nat): Outcome
    requires n <= 8
  {
    var addr := s.regs[i.rs1];
    var held := addr == s.mem.lr;
    match Load(s.mem, addr, n)
    case Err(e) => Failing(i, s, e)
    case Ok(v) =>
      match StoreWord(s.mem, addr, if held then s.regs[i.rs2] else v, n)
      case (_, Fail(e)) => Failing(i, s, e)
      case (m, Pass) =>
        Write(i, s.(mem := m.(lr := 0xFFFF_FFFF_FFFF_FFFF)), i.rd, if held then 0 else 1)
  }

  /** The destination is written before the store, so it stays written if the store fails. */
  function AtomicUpdate(env: Env, i: Inst, s: State, n: nat): Outcome
    requires n <= 8
  {
    var addr, operand := s.regs[i.rs1], s.regs[i.rs2];
    match Load(s.mem, addr, n)
    case Err(e) => Failing(i, s, e)
    case Ok(v) =>
      var s' := s.(regs := Upd(s.regs, i.rd, SignExtend(v, n)));
      match StoreWord(s.mem, addr, env.amo(i, operand, v), n)
      case (_, Fail(e)) => Failing(i, s', e)
      case (m, Pass) => Writes(i, s'.(mem := m), s'.regs)
  }

  // ---- Control transfer ----

  function Branch(i: Inst, s: State, taken: bool): Outcome {
    Jump(s, s.regs, if taken then Plus(i.imm, s.pc) else Next(i, s))
  }

  function JumpAndLink(i: Inst, s: State): Outcome {
    Jump(s, Upd(s.regs, i.rd, Next(i, s)), Plus(s.pc, i.imm))
  }

  /** VERSION1 and later: the target is read before the link is written. */
  function JumpAndLinkRegister(i: Inst, s: State): Outcome {
    Jump(s, Upd(s.regs, i.rd, Next(i, s)), ClearLowBit(Plus(s.regs[i.rs1], i.imm)))
  }

  function FarJumpRel(i: Inst, s: State): Outcome {
    Jump(s, Upd(s.regs, RA, Next(i, s)), ClearLowBit(Plus(s.pc, i.imm)))
  }

  function FarJumpAbs(i: Inst, s: State): Outcome {
    Jump(s, Upd(s.regs, RA, Next(i, s)), ClearLowBit(Wrap(i.imm)))
  }

  function ToI8(x: u64): int {
    (x + 0x80) % 0x100 - 0x80
  }

  /** The syscall handlers from `k` on, asked in turn. */
  function AskSyscalls(env: Env, k: nat, s: State): SysResult
    requires k <= |env.syscalls|
    decreases |env.syscalls| - k
  {
    if k == |env.syscalls| then SysFailed(s.regs, s.mem, InvalidEcall(s.regs[A7]))
    else
      var r := env.syscalls[k](s.regs, s.mem, s.cycles);
      if r.Unprocessed? then AskSyscalls(env, k + 1, s) else r
  }

  function EnvironmentCall(env: Env, i: Inst, s: State): Outcome {
    if s.regs[A7] == 93 then
      Outcome(s.(exitCode := ToI8(s.regs[A0]), running := false, pc := Next(i, s)), None)
    else
      match AskSyscalls(env, 0, s)
      case SysFailed(regs, mem, e) => Failing(i, s.(regs := regs, mem := mem), e)
      case Processed(regs, mem, added) =>
        var s' := s.(regs := regs, mem := mem);
        if s.cycles + added >= 0x1_0000_0000_0000_0000 then Failing(i, s', CyclesOverflow)
        else if s.cycles + added > s.maxCycles then Failing(i, s'.(cycles := s.cycles + added), CyclesExceeded)
        else Writes(i, s'.(cycles := s.cycles + added), regs)
      case Unprocessed => Failing(i, s, Unexpected)
  }

  // ---- The fused handlers: register updates one after another ----

  function Lt(a: u64, b: u64): u64 {
    FlagWord(a < b)
  }

  function Adc(r: RegFile, i: Inst): RegFile {
    var r1 := Upd(r, i.rd, Plus(r[i.rd], r[i.rs1]));
    var r2 := Upd(r1, i.rs1, Lt(r1[i.rd], r1[i.rs1]));
    var r3 := Upd(r2, i.rd, Plus(r2[i.rd], r2[i.rs2]));
    var r4 := Upd(r3, i.rs2, Lt(r3[i.rd], r3[i.rs2]));
    Upd(r4, i.rs1, Or64(r4[i.rs1], r4[i.rs2]))
  }

  function Sbb(r: RegFile, i: Inst): RegFile {
    var r1 := Upd(r, i.rs1, Minus(r[i.rd], r[i.rs1]));
    var r2 := Upd(r1, i.rs3, Lt(r1[i.rd], r1[i.rs1]));
    var r3 := Upd(r2, i.rd, Minus(r2[i.rs1], r2[i.rs2]));
    var r4 := Upd(r3, i.rs2, Lt(r3[i.rs1], r3[i.rd]));
    Upd(r4, i.rs1, Or64(r4[i.rs2], r4[i.rs3]))
  }

  function Adcs(r: RegFile, i: Inst): RegFile {
    var sum := Plus(r[i.rs1], r[i.rs2]);
    Upd(Upd(r, i.rd, sum), i.rs3, Lt(sum, r[i.rs1]))
  }

  function Sbbs(r: RegFile, i: Inst): RegFile {
    Upd(Upd(r, i.rd, Minus(r[i.rs1], r[i.rs2])), i.rs3, Lt(r[i.rs1], r[i.rs2]))
  }

  function Add3a(r: RegFile, i: Inst): RegFile {
    var r1 := Upd(r, i.rd, Plus(r[i.rd], r[i.rs1]));
    var r2 := Upd(r1, i.rs2, Lt(r1[i.rd], r1[i.rs1]));
    Upd(r2, i.rs3, Plus(r2[i.rs2], r2[i.rs4]))
  }

  function Add3b(r: RegFile, i: Inst): RegFile {
    var r1 := Upd(r, i.rd, Plus(r[i.rs1], r[i.rs2]));
    var r2 := Upd(r1, i.rs1, Lt(r1[i.rd], r1[i.rs1]));
    Upd(r2, i.rs3, Plus(r2[i.rs1], r2[i.rs4]))
  }

  function Add3c(r: RegFile, i: Inst): RegFile {
    var r1 := Upd(r, i.rd, Plus(r[i.rs1], r[i.rs2]));
    Upd(r1, i.rs3, Plus(Lt(r1[i.rd], r1[i.rs1]), r1[i.rs4]))
  }

  function Wide(r: RegFile, i: Inst, high: u64, low: u64): RegFile {
    Upd(Upd(r, i.rd, high), i.rs3, low)
  }

  // ---- Dispatch ----

  /** Opcodes that only compute a register from two others and an immediate. */
  predicate Computes(op: Op) {
    || op.ADD? || op.SUB? || op.SLTU? || op.OR? || op.LUI? || op.ADDI? || op.ADDIW? || op.ALU?
    || op.MUL? || op.MULH? || op.MULHU? || op.MULHSU? || op.DIV? || op.DIVU? || op.REM? || op.REMU?
    || op.CUSTOM_LOAD_IMM? || op.CUSTOM_LOAD_UIMM?
  }

  function Value(env: Env, i: Inst, a: u64, b: u64): u64
    requires Computes(i.op)
  {
    match i.op
    case ADD => Plus(a, b)
    case SUB => Minus(a, b)
    case SLTU => Lt(a, b)
    case OR => Or64(a, b)
    case LUI => Wrap(i.imm)
    case ADDI => Plus(a, i.imm)
    case ADDIW => SignExtend(Plus(a, i.imm), 4)
    case ALU(_) => env.alu(i, a, b)
    case MUL => Mul(a, b)
    case MULH => MulHighSigned(a, b)
    case MULHU => MulHighUnsigned(a, b)
    case MULHSU => MulHighSignedUnsigned(a, b)
    case DIV => DivSigned(a, b)
    case DIVU => DivUnsigned(a, b)
    case REM => RemSigned(a, b)
    case REMU => RemUnsigned(a, b)
    case CUSTOM_LOAD_IMM => Wrap(i.imm)
    case CUSTOM_LOAD_UIMM => i.imm % 0x1_0000_0000
  }

  predicate AccessesMemory(op: Op) {
    || op.LB? || op.LBU? || op.LD? || op.LH? || op.LHU? || op.LW? || op.LWU? || op.SB? || op.SD? || op.SH? || op.SW?
    || op.LR_W? || op.SC_W? || op.AMO_W? || op.LR_D? || op.SC_D? || op.AMO_D?
  }

  function ExecMemory(env: Env, i: Inst, s: State): Outcome
    requires AccessesMemory(i.op)
  {
    match i.op
    case LB => ExecLoad(i, s, 1, true)
    case LBU => ExecLoad(i, s, 1, false)
    case LD => ExecLoad(i, s, 8, true)
    case LH => ExecLoad(i, s, 2, true)
    case LHU => ExecLoad(i, s, 2, false)
    case LW => ExecLoad(i, s, 4, true)
    case LWU => ExecLoad(i, s, 4, false)
    case SB => ExecStore(i, s, 1)
    case SD => ExecStore(i, s, 8)
    case SH => ExecStore(i, s, 2)
    case SW => ExecStore(i, s, 4)
    case LR_W => LoadReserved(i, s, 4)
    case SC_W => StoreConditional(i, s, 4)
    case AMO_W(_) => AtomicUpdate(env, i, s, 4)
    case LR_D => LoadReserved(i, s, 8)
    case SC_D => StoreConditional(i, s, 8)
    case AMO_D(_) => AtomicUpdate(env, i, s, 8)
  }

  /** The fused opcodes that write several registers. */
  predicate WritesSeveral(op: Op) {
    || op.WIDE_MUL? || op.WIDE_MULU? || op.WIDE_MULSU? || op.WIDE_DIV? || op.WIDE_DIVU?
    || op.ADC? || op.SBB? || op.ADCS? || op.SBBS? || op.ADD3A? || op.ADD3B? || op.ADD3C?
  }

  function FusedRegs(i: Inst, r: RegFile): RegFile
    requires WritesSeveral(i.op)
  {
    var a, b := r[i.rs1], r[i.rs2];
    match i.op
    case WIDE_MUL => Wide(r, i, MulHighSigned(a, b), Mul(a, b))
    case WIDE_MULU => Wide(r, i, MulHighUnsigned(a, b), Mul(a, b))
    case WIDE_MULSU => Wide(r, i, MulHighSignedUnsigned(a, b), Mul(a, b))
    case WIDE_DIV => Wide(r, i, DivSigned(a, b), RemSigned(a, b))
    case WIDE_DIVU => Wide(r, i, DivUnsigned(a, b), RemUnsigned(a, b))
    case ADC => Adc(r, i)
    case SBB => Sbb(r, i)
    case ADCS => Adcs(r, i)
    case SBBS => Sbbs(r, i)
    case ADD3A => Add3a(r, i)
    case ADD3B => Add3b(r, i)
    case ADD3C => Add3c(r, i)
  }

  /** Everything else: what reads or redirects pc, calls out, does nothing, or is invalid. */
  function ExecControl(env: Env, i: Inst, s: State): Outcome {
    var a, b := s.regs[i.rs1], s.regs[i.rs2];
    match i.op
    case AUIPC => Write(i, s, i.rd, Plus(s.pc, i.imm))
    case BEQ => Branch(i, s, a == b)
    case BGE => Branch(i, s, Signed(a) >= Signed(b))
    case BGEU => Branch(i, s, a >= b)
    case BLT => Branch(i, s, Signed(a) < Signed(b))
    case BLTU => Branch(i, s, a < b)
    case BNE => Branch(i, s, a != b)
    case EBREAK => Writes(i, s, s.regs)
    case ECALL => EnvironmentCall(env, i, s)
    case FENCE => Writes(i, s, s.regs)
    case FENCEI => Writes(i, s, s.regs)
    case JAL => JumpAndLink(i, s)
    case JALR => JumpAndLinkRegister(i, s)
    case FAR_JUMP_REL => FarJumpRel(i, s)
    case FAR_JUMP_ABS => FarJumpAbs(i, s)
    case _ => Failing(i, s, InvalidOp(Code(i.op)))
  }

  function Execute(env: Env, i: Inst, s: State): Outcome {
    if Computes(i.op) then Write(i, s, i.rd, Value(env, i, s.regs[i.rs1], s.regs[i.rs2]))
    else if AccessesMemory(i.op) then ExecMemory(env, i, s)
    else if WritesSeveral(i.op) then Writes(i, s, FusedRegs(i, s.regs))
    else ExecControl(env, i, s)
  }
}
