/** Whole runs of the single-step machine. */
module Run {
  import opened Words
  import opened Outcomes
  import opened Pages
  import opened Instructions
  import opened Exec
  import opened Decode
  import opened Fusion

  datatype Config = Config(isa: Isa, mop: bool, env: Env, cost: Inst -> u64)

  /** `add_cycles` */
  function AddCycles(s: State, c: u64): (r: Outcome)
    ensures r.err.None? <==> s.cycles + c <= s.maxCycles
    ensures r.err.None? ==> r.st.cycles == s.cycles + c <= r.st.maxCycles
    ensures r.err == Some(CyclesOverflow) <==> s.cycles + c >= 0x1_0000_0000_0000_0000
    ensures r.err == Some(CyclesExceeded) <==> s.maxCycles < s.cycles + c < 0x1_0000_0000_0000_0000
    ensures r.err.Some? ==> r.st == s
  {
    if s.cycles + c >= 0x1_0000_0000_0000_0000 then Outcome(s, Some(CyclesOverflow))
    else if s.cycles + c > s.maxCycles then Outcome(s, Some(CyclesExceeded))
    else Outcome(s.(cycles := s.cycles + c), None)
  }

  /** Charge an instruction, then execute it. */
  function Charge(cfg: Config, i: Inst, s: State): Outcome {
    var o := AddCycles(s, cfg.cost(i));
    if o.err.Some? then o else Execute(cfg.env, i, o.st)
  }

  /** `step` */
  function Step(cfg: Config, s: State): Outcome {
    match DecodeAny(cfg.isa, cfg.mop, s.mem, s.pc)
    case Err(e) => Outcome(s, Some(e))
    case Ok(i) => Charge(cfg, i, s)
  }

  datatype Progress = Running(st: State) | Halted(code: int, st: State) | Stopped(error: Error, st: State)

  /** The loop of `run_with_decoder`, cut off after `n` steps. */
  function RunN(cfg: Config, s: State, n: nat): Progress
    decreases n
  {
    if !s.running then Halted(s.exitCode, s)
    else if n == 0 then Running(s)
    else
      var o := Step(cfg, s);
      if o.err.Some? then Stopped(o.err.value, o.st) else RunN(cfg, o.st, n - 1)
  }

  /** `a` steps, then `b` more. */
  lemma {:induction false} RunSplit(cfg: Config, s: State, a: nat, b: nat)
    ensures RunN(cfg, s, a + b) == match RunN(cfg, s, a) case Running(t) => RunN(cfg, t, b) case p => p
    decreases a
  {
    hide Step;
    if s.running && a > 0 && Step(cfg, s).err.None? {
      RunSplit(cfg, Step(cfg, s).st, a - 1, b);
    }
  }

  /** What a run is after one more step that ended with `o`. */
  function After(o: Outcome): Progress {
    if o.err.Some? then Stopped(o.err.value, o.st)
    else if o.st.running then Running(o.st)
    else Halted(o.st.exitCode, o.st)
  }

  lemma OneMore(cfg: Config, s: State, n: nat, t: State)
    requires RunN(cfg, s, n) == Running(t)
    ensures RunN(cfg, s, n + 1) == After(Step(cfg, t))
  {
    hide Step;
    RunSplit(cfg, s, n, 1);
    StillRunning(cfg, s, n);
  }

  lemma {:induction false} StillRunning(cfg: Config, s: State, n: nat)
    requires RunN(cfg, s, n).Running?
    ensures RunN(cfg, s, n).st.running
    decreases n
  {
    hide Step;
    if n > 0 {
      StillRunning(cfg, Step(cfg, s).st, n - 1);
    }
  }

  /** A run ends in one way only. */
  lemma EndIsUnique(cfg: Config, s: State, a: nat, b: nat)
    requires !RunN(cfg, s, a).Running? && !RunN(cfg, s, b).Running?
    ensures RunN(cfg, s, a) == RunN(cfg, s, b)
  {
    hide RunN;
    if a <= b {
      RunSplit(cfg, s, a, b - a);
    } else {
      RunSplit(cfg, s, b, a - b);
    }
  }

  // ---- Cycles bound the run ----

  /** After every successful step, a processed system call included, the cycles are within the limit. */
  lemma StepStaysWithinLimit(cfg: Config, s: State)
    requires Step(cfg, s).err.None?
    ensures Step(cfg, s).st.cycles <= Step(cfg, s).st.maxCycles == s.maxCycles
    ensures exists i ::
              DecodeAny(cfg.isa, cfg.mop, s.mem, s.pc) == Ok(i) && Step(cfg, s).st.cycles >= s.cycles + cfg.cost(i)
  {
    hide Execute;
    var i := DecodeAny(cfg.isa, cfg.mop, s.mem, s.pc).value;
    var o := AddCycles(s, cfg.cost(i));
    ExecuteCycles(cfg.env, i, o.st);
  }

  /** Only a system call adds cycles, and nothing changes the limit. */
  lemma ExecuteCycles(env: Env, i: Inst, s: State)
    ensures Execute(env, i, s).st.maxCycles == s.maxCycles
    ensures if i.op.ECALL? then Execute(env, i, s).st.cycles >= s.cycles else Execute(env, i, s).st.cycles == s.cycles
    ensures Execute(env, i, s).err.None? && s.cycles <= s.maxCycles ==> Execute(env, i, s).st.cycles <= s.maxCycles
  {
    if i.op.ECALL? {
      hide AskSyscalls, Plus, ToI8;
      assert Execute(env, i, s) == EnvironmentCall(env, i, s);
    } else {
      hide Execute;
      CountersUnread(env, i, s, s.cycles, s.maxCycles);
    }
  }

  /** A successful step that is not a system call costs exactly its instruction. */
  lemma StepCost(cfg: Config, s: State)
    requires Step(cfg, s).err.None?
    ensures exists i :: DecodeAny(cfg.isa, cfg.mop, s.mem, s.pc) == Ok(i)
              && (!i.op.ECALL? ==> Step(cfg, s).st.cycles == s.cycles + cfg.cost(i))
  {
    hide Execute;
    var i := DecodeAny(cfg.isa, cfg.mop, s.mem, s.pc).value;
    ExecuteCycles(cfg.env, i, AddCycles(s, cfg.cost(i)).st);
  }

  /** A step that cannot decode, or cannot pay, does nothing; otherwise the instruction is executed with
      its cost on the counter. */
  lemma StepOutcome(cfg: Config, s: State)
    ensures match DecodeAny(cfg.isa, cfg.mop, s.mem, s.pc)
            case Err(e) => Step(cfg, s) == Outcome(s, Some(e))
            case Ok(i) =>
              var total := s.cycles + cfg.cost(i);
              if total >= 0x1_0000_0000_0000_0000 then Step(cfg, s) == Outcome(s, Some(CyclesOverflow))
              else if total > s.maxCycles then Step(cfg, s) == Outcome(s, Some(CyclesExceeded))
              else Step(cfg, s) == Execute(cfg.env, i, s.(cycles := total))
  {
    hide Execute, DecodeAny;
  }

  /** `s` with other counters. */
  function Recount(s: State, c: u64, limit: u64): State {
    s.(cycles := c, maxCycles := limit)
  }

  ghost predicate SameButCounters(o: Outcome, o': Outcome, c: u64, limit: u64) {
    o == Outcome(Recount(o'.st, c, limit), o'.err)
  }

  /** Only system calls look at the counters. */
  lemma CountersUnread(env: Env, i: Inst, s: State, c: u64, limit: u64)
    requires !i.op.ECALL?
    ensures SameButCounters(Execute(env, i, Recount(s, c, limit)), Execute(env, i, s), c, limit)
    ensures Execute(env, i, s).st.cycles == s.cycles && Execute(env, i, s).st.maxCycles == s.maxCycles
  {
    hide Value, FusedRegs, Upd, ExecMemory, ExecControl;
    if AccessesMemory(i.op) {
      MemoryCountersUnread(env, i, s, c, limit);
    } else if !Computes(i.op) && !WritesSeveral(i.op) {
      ControlCountersUnread(env, i, s, c, limit);
    }
  }

  lemma MemoryCountersUnread(env: Env, i: Inst, s: State, c: u64, limit: u64)
    requires AccessesMemory(i.op)
    ensures SameButCounters(ExecMemory(env, i, Recount(s, c, limit)), ExecMemory(env, i, s), c, limit)
    ensures ExecMemory(env, i, s).st.cycles == s.cycles && ExecMemory(env, i, s).st.maxCycles == s.maxCycles
  {
    hide Upd, StoreWord, Load, SignExtend, Plus;
  }

  predicate Compares(op: Op) {
    op.BEQ? || op.BGE? || op.BGEU? || op.BLT? || op.BLTU? || op.BNE?
  }

  lemma BranchCountersUnread(env: Env, i: Inst, s: State, c: u64, limit: u64)
    requires Compares(i.op)
    ensures SameButCounters(ExecControl(env, i, Recount(s, c, limit)), ExecControl(env, i, s), c, limit)
    ensures ExecControl(env, i, s).st.cycles == s.cycles && ExecControl(env, i, s).st.maxCycles == s.maxCycles
  {
    hide Signed, Plus;
  }

  lemma ControlCountersUnread(env: Env, i: Inst, s: State, c: u64, limit: u64)
    requires !i.op.ECALL?
    ensures SameButCounters(ExecControl(env, i, Recount(s, c, limit)), ExecControl(env, i, s), c, limit)
    ensures ExecControl(env, i, s).st.cycles == s.cycles && ExecControl(env, i, s).st.maxCycles == s.maxCycles
  {
    hide Upd, ClearLowBit, Signed, Plus, Wrap, EnvironmentCall, Code, Branch;
    if Compares(i.op) {
      BranchCountersUnread(env, i, s, c, limit);
    }
  }

  /** If every instruction costs something, no run makes more steps than it has cycles left. */
  lemma {:induction false} RunEnds(cfg: Config, s: State, n: nat)
    requires forall i :: cfg.cost(i) >= 1
    requires s.cycles <= s.maxCycles && n > s.maxCycles - s.cycles
    ensures !RunN(cfg, s, n).Running?
    decreases n
  {
    hide Step;
    if s.running && Step(cfg, s).err.None? {
      StepStaysWithinLimit(cfg, s);
      RunEnds(cfg, Step(cfg, s).st, n - 1);
    }
  }

  // ---- Decoding never reports the cycle limit ----

  lemma {:induction false} PermissionErrors(m: Mem, lo: u64, hi: nat, exec: bool)
    requires hi < 0x10_0000_0000_0000
    ensures CheckPermission(m, lo, hi, exec) != Fail(CyclesExceeded)
    decreases hi + 1 - lo
  {
    if lo <= hi && lo < |m.flags| {
      PermissionErrors(m, lo + 1, hi, exec);
    }
  }

  lemma FetchErrors(m: Mem, addr: u64, n: nat)
    requires 0 < n <= 8
    ensures ExecuteLoad(m, addr, n) != Err(CyclesExceeded)
  {
    if CheckNoOverflow(addr, n, |m.data|).Pass? {
      PermissionErrors(m, addr / 4096, (addr + n - 1) / 4096, true);
    }
  }

  lemma DecodeErrors(isa: Isa, mop: bool, m: Mem, pc: u64)
    ensures DecodeAny(isa, mop, m, pc) != Err(CyclesExceeded)
  {
    hide ExecuteLoad, Fuse, Ahead;
    FetchErrors(m, pc, 4);
    FetchErrors(m, pc, 2);
    FetchErrors(m, Plus(pc, 2), 2);
  }
}
