/** `DefaultMachine`: registers, pc, memory and cycles updated in place, and the loop that runs it. */
module Machine {
  import opened Words
  import opened Outcomes
  import opened Pages
  import opened Arith
  import opened Instructions
  import opened Exec
  import opened KeepCode
  import D = Decode
  import opened Fusion
  import opened Run
  import Decoder

  class DefaultMachine {
    var registers: RegFile
    var pc: u64
    var nextPc: u64
    var memory: Mem
    var cycles: u64
    var maxCycles: u64
    var running: bool
    var exitCode: int
    const env: Env
    const cost: Inst -> u64
    const version: nat

    /** The machine's state between instructions. */
    function St(): State
      reads this
    {
      State(registers, pc, memory, cycles, maxCycles, running, exitCode)
    }

    /** The state that `commit_pc` will leave. */
    ghost function Committed(): State
      reads this
    {
      St().(pc := nextPc)
    }

    constructor (s: State, env: Env, cost: Inst -> u64, version: nat)
      ensures St() == s && this.env == env && this.cost == cost && this.version == version
    {
      registers, pc, nextPc, memory := s.regs, s.pc, s.pc, s.mem;
      cycles, maxCycles, running, exitCode := s.cycles, s.maxCycles, s.running, s.exitCode;
      this.env, this.cost, this.version := env, cost, version;
    }

    method UpdateRegister(rd: Reg, value: u64)
      modifies this`registers
      ensures registers == Upd(old(registers), rd, value)
    {
      if rd == 0 {
        return;
      }
      registers := registers[rd := value];
    }

    method AddCycles(c: u64) returns (err: Option<Error>)
      modifies this`cycles
      ensures Outcome(St(), err) == Run.AddCycles(old(St()), c)
    {
      if cycles + c >= 0x1_0000_0000_0000_0000 {
        return Some(CyclesOverflow);
      }
      if cycles + c > maxCycles {
        return Some(CyclesExceeded);
      }
      cycles := cycles + c;
      return None;
    }

    // ---- The fused handlers ----

    method HandleAdc(i: Inst)
      modifies this`registers
      ensures registers == Adc(old(registers), i)
    {
      hide Plus, Or64;
      UpdateRegister(i.rd, Plus(registers[i.rd], registers[i.rs1]));
      UpdateRegister(i.rs1, Lt(registers[i.rd], registers[i.rs1]));
      UpdateRegister(i.rd, Plus(registers[i.rd], registers[i.rs2]));
      UpdateRegister(i.rs2, Lt(registers[i.rd], registers[i.rs2]));
      UpdateRegister(i.rs1, Or64(registers[i.rs1], registers[i.rs2]));
    }

    method HandleSbb(i: Inst)
      modifies this`registers
      ensures registers == Sbb(old(registers), i)
    {
      hide Minus, Or64;
      UpdateRegister(i.rs1, Minus(registers[i.rd], registers[i.rs1]));
      UpdateRegister(i.rs3, Lt(registers[i.rd], registers[i.rs1]));
      UpdateRegister(i.rd, Minus(registers[i.rs1], registers[i.rs2]));
      UpdateRegister(i.rs2, Lt(registers[i.rs1], registers[i.rd]));
      UpdateRegister(i.rs1, Or64(registers[i.rs2], registers[i.rs3]));
    }

    method HandleAdcs(i: Inst)
      modifies this`registers
      ensures registers == Adcs(old(registers), i)
    {
      var a, b := registers[i.rs1], registers[i.rs2];
      var r := Plus(a, b);
      UpdateRegister(i.rd, r);
      UpdateRegister(i.rs3, Lt(r, a));
    }

    method HandleSbbs(i: Inst)
      modifies this`registers
      ensures registers == Sbbs(old(registers), i)
    {
      var a, b := registers[i.rs1], registers[i.rs2];
      UpdateRegister(i.rd, Minus(a, b));
      UpdateRegister(i.rs3, Lt(a, b));
    }

    method HandleAdd3a(i: Inst)
      modifies this`registers
      ensures registers == Add3a(old(registers), i)
    {
      UpdateRegister(i.rd, Plus(registers[i.rd], registers[i.rs1]));
      UpdateRegister(i.rs2, Lt(registers[i.rd], registers[i.rs1]));
      UpdateRegister(i.rs3, Plus(registers[i.rs2], registers[i.rs4]));
    }

    method HandleAdd3b(i: Inst)
      modifies this`registers
      ensures registers == Add3b(old(registers), i)
    {
      UpdateRegister(i.rd, Plus(registers[i.rs1], registers[i.rs2]));
      UpdateRegister(i.rs1, Lt(registers[i.rd], registers[i.rs1]));
      UpdateRegister(i.rs3, Plus(registers[i.rs1], registers[i.rs4]));
    }

    method HandleAdd3c(i: Inst)
      modifies this`registers
      ensures registers == Add3c(old(registers), i)
    {
      UpdateRegister(i.rd, Plus(registers[i.rs1], registers[i.rs2]));
      UpdateRegister(i.rs3, Plus(Lt(registers[i.rd], registers[i.rs1]), registers[i.rs4]));
    }

    /** The wide multiplications and divisions. Both results are computed before either is written. */
    method HandleWide(i: Inst)
      requires Fusion.IsWide(i.op)
      modifies this`registers
      ensures registers == FusedRegs(i, old(registers))
    {
      hide Mul, MulHighSigned, MulHighUnsigned, MulHighSignedUnsigned, DivSigned, DivUnsigned, RemSigned, RemUnsigned;
      var a, b := registers[i.rs1], registers[i.rs2];
      var high, low;
      match i.op {
        case WIDE_MUL => high, low := MulHighSigned(a, b), Mul(a, b);
        case WIDE_MULU => high, low := MulHighUnsigned(a, b), Mul(a, b);
        case WIDE_MULSU => high, low := MulHighSignedUnsigned(a, b), Mul(a, b);
        case WIDE_DIV => high, low := DivSigned(a, b), RemSigned(a, b);
        case WIDE_DIVU => high, low := DivUnsigned(a, b), RemUnsigned(a, b);
      }
      UpdateRegister(i.rd, high);
      UpdateRegister(i.rs3, low);
    }

    method HandleFused(i: Inst)
      requires WritesSeveral(i.op)
      modifies this`registers
      ensures registers == FusedRegs(i, old(registers))
    {
      hide Adc, Sbb, Adcs, Sbbs, Add3a, Add3b, Add3c, Wide;
      match i.op {
        case ADC => HandleAdc(i);
        case SBB => HandleSbb(i);
        case ADCS => HandleAdcs(i);
        case SBBS => HandleSbbs(i);
        case ADD3A => HandleAdd3a(i);
        case ADD3B => HandleAdd3b(i);
        case ADD3C => HandleAdd3c(i);
        case _ => HandleWide(i);
      }
    }

    // ---- Loads, stores and atomics ----

    method HandleLoad(i: Inst, n: nat, signed: bool) returns (err: Option<Error>)
      requires n <= 8 && nextPc == Plus(pc, i.len)
      modifies this`registers
      ensures Outcome(Committed(), err) == ExecLoad(i, old(St()), n, signed)
    {
      hide Load, SignExtend;
      var v := Load(memory, Plus(registers[i.rs1], i.imm), n);
      if v.Err? {
        return Some(v.error);
      }
      UpdateRegister(i.rd, if signed then SignExtend(v.value, n) else v.value);
      return None;
    }

    method HandleStore(i: Inst, n: nat) returns (err: Option<Error>)
      requires nextPc == Plus(pc, i.len)
      modifies this`memory
      ensures Outcome(Committed(), err) == ExecStore(i, old(St()), n)
    {
      hide StoreWord;
      var (m, s) := StoreWord(memory, Plus(registers[i.rs1], i.imm), registers[i.rs2], n);
      if s.Fail? {
        return Some(s.error);
      }
      memory := m;
      return None;
    }

    method HandleLoadReserved(i: Inst, n: nat) returns (err: Option<Error>)
      requires n <= 8 && nextPc == Plus(pc, i.len)
      modifies this`registers, this`memory
      ensures Outcome(Committed(), err) == LoadReserved(i, old(St()), n)
    {
      hide Load, SignExtend;
      var address := registers[i.rs1];
      var v := Load(memory, address, n);
      if v.Err? {
        return Some(v.error);
      }
      UpdateRegister(i.rd, SignExtend(v.value, n));
      memory := memory.(lr := address);
      return None;
    }

    method HandleStoreConditional(i: Inst, n: nat) returns (err: Option<Error>)
      requires n <= 8 && nextPc == Plus(pc, i.len)
      modifies this`registers, this`memory
      ensures Outcome(Committed(), err) == StoreConditional(i, old(St()), n)
    {
      hide Load, StoreWord;
      var address := registers[i.rs1];
      var held := address == memory.lr;
      var v := Load(memory, address, n);
      if v.Err? {
        return Some(v.error);
      }
      var (m, s) := StoreWord(memory, address, if held then registers[i.rs2] else v.value, n);
      if s.Fail? {
        return Some(s.error);
      }
      memory := m;
      UpdateRegister(i.rd, if held then 0 else 1);
      memory := memory.(lr := 0xFFFF_FFFF_FFFF_FFFF);
      return None;
    }

    method HandleAtomic(i: Inst, n: nat) returns (err: Option<Error>)
      requires n <= 8 && nextPc == Plus(pc, i.len)
      modifies this`registers, this`memory
      ensures Outcome(Committed(), err) == AtomicUpdate(env, i, old(St()), n)
    {
      hide Load, StoreWord, SignExtend;
      var address, operand := registers[i.rs1], registers[i.rs2];
      var v := Load(memory, address, n);
      if v.Err? {
        return Some(v.error);
      }
      UpdateRegister(i.rd, SignExtend(v.value, n));
      var (m, s) := StoreWord(memory, address, env.amo(i, operand, v.value), n);
      if s.Fail? {
        return Some(s.error);
      }
      memory := m;
      return None;
    }

    method HandleMemory(i: Inst) returns (err: Option<Error>)
      requires AccessesMemory(i.op) && nextPc == Plus(pc, i.len)
      modifies this`registers, this`memory
      ensures Outcome(Committed(), err) == ExecMemory(env, i, old(St()))
    {
      hide ExecLoad, ExecStore, LoadReserved, StoreConditional, AtomicUpdate;
      match i.op {
        case LB => err := HandleLoad(i, 1, true);
        case LBU => err := HandleLoad(i, 1, false);
        case LD => err := HandleLoad(i, 8, true);
        case LH => err := HandleLoad(i, 2, true);
        case LHU => err := HandleLoad(i, 2, false);
        case LW => err := HandleLoad(i, 4, true);
        case LWU => err := HandleLoad(i, 4, false);
        case SB => err := HandleStore(i, 1);
        case SD => err := HandleStore(i, 8);
        case SH => err := HandleStore(i, 2);
        case SW => err := HandleStore(i, 4);
        case LR_W => err := HandleLoadReserved(i, 4);
        case SC_W => err := HandleStoreConditional(i, 4);
        case AMO_W(_) => err := HandleAtomic(i, 4);
        case LR_D => err := HandleLoadReserved(i, 8);
        case SC_D => err := HandleStoreConditional(i, 8);
        case AMO_D(_) => err := HandleAtomic(i, 8);
      }
    }

    // ---- Control ----

    method Ecall(i: Inst) returns (err: Option<Error>)
      requires nextPc == Plus(pc, i.len)
      modifies this`registers, this`memory, this`cycles, this`running, this`exitCode
      ensures Outcome(Committed(), err) == EnvironmentCall(env, i, old(St()))
    {
      var code := registers[A7];
      if code == 93 {
        exitCode := ToI8(registers[A0]);
        running := false;
        return None;
      }
      for k := 0 to |env.syscalls|
        invariant St() == old(St())
        invariant AskSyscalls(env, 0, St()) == AskSyscalls(env, k, St())
      {
        var r := env.syscalls[k](registers, memory, cycles);
        if r.SysFailed? {
          registers, memory := r.regs, r.mem;
          return Some(r.error);
        }
        if r.Processed? {
          registers, memory := r.regs, r.mem;
          if cycles + r.addedCycles >= 0x1_0000_0000_0000_0000 {
            return Some(CyclesOverflow);
          }
          cycles := cycles + r.addedCycles;
          if cycles > maxCycles {
            return Some(CyclesExceeded);
          }
          return None;
        }
      }
      return Some(InvalidEcall(code));
    }

    method HandleBranch(i: Inst, taken: bool)
      requires nextPc == Plus(pc, i.len)
      modifies this`nextPc
      ensures Outcome(Committed(), None) == Branch(i, old(St()), taken)
    {
      if taken {
        nextPc := Plus(i.imm, pc);
      }
    }

    /** JAL, JALR and the two far jumps: the target is computed before the link is written. */
    method HandleJump(i: Inst)
      requires nextPc == Plus(pc, i.len) && (i.op.JAL? || i.op.JALR? || i.op.FAR_JUMP_REL? || i.op.FAR_JUMP_ABS?)
      modifies this`registers, this`nextPc
      ensures Outcome(Committed(), None) == ExecControl(env, i, old(St()))
    {
      hide ClearLowBit;
      var link := Plus(pc, i.len);
      match i.op {
        case JAL =>
          UpdateRegister(i.rd, link);
          nextPc := Plus(pc, i.imm);
        case JALR =>
          var target := ClearLowBit(Plus(registers[i.rs1], i.imm));
          UpdateRegister(i.rd, link);
          nextPc := target;
        case FAR_JUMP_REL =>
          var target := ClearLowBit(Plus(pc, i.imm));
          UpdateRegister(RA, link);
          nextPc := target;
        case FAR_JUMP_ABS =>
          var target := ClearLowBit(Wrap(i.imm));
          UpdateRegister(RA, link);
          nextPc := target;
      }
    }

    method HandleControl(i: Inst) returns (err: Option<Error>)
      requires nextPc == Plus(pc, i.len)
      requires !Computes(i.op) && !AccessesMemory(i.op) && !WritesSeveral(i.op)
      modifies this
      ensures Outcome(Committed(), err) == ExecControl(env, i, old(St())) && pc == old(pc)
    {
      hide EnvironmentCall, Signed;
      var a, b := registers[i.rs1], registers[i.rs2];
      err := None;
      match i.op {
        case AUIPC => UpdateRegister(i.rd, Plus(pc, i.imm));
        case BEQ => HandleBranch(i, a == b);
        case BGE => HandleBranch(i, Signed(a) >= Signed(b));
        case BGEU => HandleBranch(i, a >= b);
        case BLT => HandleBranch(i, Signed(a) < Signed(b));
        case BLTU => HandleBranch(i, a < b);
        case BNE => HandleBranch(i, a != b);
        case EBREAK | FENCE | FENCEI =>
        case ECALL => err := Ecall(i);
        case JAL | JALR | FAR_JUMP_REL | FAR_JUMP_ABS => HandleJump(i);
        case _ => err := Some(InvalidOp(Code(i.op)));
      }
    }

    // ---- Execute, step, run ----

    /** The handler that the opcode selects. */
    method ExecuteInstruction(i: Inst) returns (err: Option<Error>)
      requires nextPc == Plus(pc, i.len)
      modifies this
      ensures Outcome(Committed(), err) == Exec.Execute(env, i, old(St()))
    {
      hide Value, FusedRegs, ExecMemory, ExecControl;
      err := None;
      if Computes(i.op) {
        UpdateRegister(i.rd, Value(env, i, registers[i.rs1], registers[i.rs2]));
      } else if AccessesMemory(i.op) {
        err := HandleMemory(i);
      } else if WritesSeveral(i.op) {
        HandleFused(i);
      } else {
        err := HandleControl(i);
      }
    }

    /** `execute`: the next instruction's address is prepared first, and committed error or not. */
    method Execute(i: Inst) returns (err: Option<Error>)
      modifies this
      ensures Outcome(St(), err) == Exec.Execute(env, i, old(St()))
    {
      hide Exec.Execute;
      nextPc := Plus(pc, i.len);
      err := ExecuteInstruction(i);
      pc := nextPc;
    }

    /** `execute_with_thread`: the handler was looked up earlier, by the opcode `thread`. */
    method ExecuteWithThread(i: Inst, thread: Op) returns (err: Option<Error>)
      modifies this
      ensures Outcome(St(), err) == Exec.Execute(env, i.(op := thread), old(St()))
    {
      hide Exec.Execute;
      nextPc := Plus(pc, i.len);
      err := ExecuteInstruction(i.(op := thread));
      pc := nextPc;
    }

    ghost function Cfg(decoder: Decoder.DefaultDecoder): Config {
      Config(decoder.isa, decoder.mop, env, cost)
    }

    method Step(decoder: Decoder.DefaultDecoder) returns (err: Option<Error>)
      requires decoder.Valid() && decoder.Trusts(memory) && KeepsCode(env)
      modifies this, decoder.instructionsCache
      ensures Outcome(St(), err) == Run.Step(Cfg(decoder), old(St()))
      ensures decoder.Trusts(memory)
    {
      hide Exec.Execute, DecodeAny, KeepsCode, D.Trusted, D.SameCode;
      var i := decoder.Decode(memory, pc);
      if i.Err? {
        return Some(i.error);
      }
      var before := memory;
      err := AddCycles(cost(i.value));
      if err.Some? {
        return;
      }
      ghost var s := St();
      err := Execute(i.value);
      ExecuteKeepsCode(env, i.value, s);
      TrustStays(decoder, before, memory);
    }

    lemma TrustStays(decoder: Decoder.DefaultDecoder, m: Mem, m': Mem)
      requires decoder.Valid() && decoder.Trusts(m) && D.SameCode(m, m')
      ensures decoder.Trusts(m')
    {
      D.TrustKept(decoder.isa, decoder.Entries(), m, m');
    }

    /** `run_with_decoder`. The loop ends because every instruction costs at least one cycle; what it
        returns, and the state it leaves, are those of the run function after `steps` steps. */
    method RunWithDecoder(decoder: Decoder.DefaultDecoder) returns (r: Result<int>, ghost steps: nat)
      requires decoder.Valid() && decoder.Trusts(memory) && KeepsCode(env)
      requires forall i :: cost(i) >= 1
      modifies this, decoder.instructionsCache
      ensures decoder.mop && version == 0 ==> r == Err(InvalidVersion) && St() == old(St())
      ensures !(decoder.mop && version == 0) ==>
                Ended(Cfg(decoder), old(St()).(running := true), steps, r, St())
      ensures r.Ok? ==> steps <= old(maxCycles) - old(cycles)
      ensures steps <= 1 || steps - 1 <= old(maxCycles) - old(cycles)
    {
      hide Run.Step, RunN, DecodeAny, KeepsCode, D.Trusted;
      steps := 0;
      if decoder.mop && version == 0 {
        return Err(InvalidVersion), 0;
      }
      running := true;
      ghost var s := St();
      NoSteps(Cfg(decoder), s);
      while running
        invariant decoder.Trusts(memory)
        invariant RunN(Cfg(decoder), s, steps) == if running then Running(St()) else Halted(exitCode, St())
        invariant maxCycles == s.maxCycles && (steps > 0 ==> s.cycles + steps <= cycles <= maxCycles)
        invariant steps == 0 ==> St() == s
        decreases maxCycles - cycles, running
      {
        ghost var before := St();
        var err := Step(decoder);
        OneMore(Cfg(decoder), s, steps, before);
        steps := steps + 1;
        if err.Some? {
          return Err(err.value), steps;
        }
        StepStaysWithinLimit(Cfg(decoder), before);
      }
      return Ok(exitCode), steps;
    }
  }

  lemma NoSteps(cfg: Config, s: State)
    requires s.running
    ensures RunN(cfg, s, 0) == Running(s)
  {
  }

  /** After `n` steps from `s` the run has ended, with result `r` and state `t`. */
  ghost predicate Ended(cfg: Config, s: State, n: nat, r: Result<int>, t: State) {
    RunN(cfg, s, n) == match r case Ok(code) => Halted(code, t) case Err(e) => Stopped(e, t)
  }
}
