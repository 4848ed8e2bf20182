/** A whole run with fusion ends as the run without it does, and costs no more. */
module FusedRun {
  import opened Words
  import opened Outcomes
  import opened Pages
  import opened Instructions
  import opened Exec
  import opened Decode
  import opened Fusion
  import opened FusionProofs
  import opened Run
  import opened KeepCode

  // ---- Hypotheses ----

  /** What the factories produce: no fused opcode, 20 high bits in LUI, 12 signed bits in JALR. */
  ghost predicate WellFormed(isa: Isa) {
    forall k, bits: nat :: 0 <= k < |isa.factories| && isa.factories[k](bits, isa.version).Some? ==>
      WellFormedInst(isa.factories[k](bits, isa.version).value)
  }

  predicate WellFormedInst(i: Inst) {
    && !IsFused(i.op) && i.len in {2, 4}
    && (i.op.LUI? ==> i.imm % 4096 == 0)
    && (i.op.JALR? ==> -2048 <= i.imm < 2048)
  }

  /** System calls do not look at the cycle counter and do not change code. */
  ghost predicate Polite(env: Env) {
    KeepsCode(env) && CycleBlind(env)
  }

  ghost predicate CycleBlind(env: Env) {
    forall k, regs: RegFile, m: Mem, c: u64 :: 0 <= k < |env.syscalls| ==>
      env.syscalls[k](regs, m, c) == env.syscalls[k](regs, m, 0)
  }

  function SumCost(cost: Inst -> u64, w: seq<Inst>): nat {
    if w == [] then 0 else cost(w[0]) + SumCost(cost, w[1..])
  }

  /** No fused instruction costs more than what it replaces. */
  ghost predicate FusionPays(cost: Inst -> u64) {
    forall w: seq<Inst>, pc: u64, version: nat :: |w| > 0 ==>
      cost(Fuse(w, pc, version).inst) <= SumCost(cost, w[..Fuse(w, pc, version).parts])
  }

  lemma {:induction false} CostsAtLeastOne(cost: Inst -> u64, w: seq<Inst>)
    requires forall i :: cost(i) >= 1
    ensures SumCost(cost, w) >= |w|
  {
    if w != [] {
      CostsAtLeastOne(cost, w[1..]);
    }
  }

  lemma CostOfTwo(cost: Inst -> u64, w: seq<Inst>)
    requires |w| >= 2
    ensures SumCost(cost, w) == cost(w[0]) + cost(w[1]) + SumCost(cost, w[2..])
  {
    assert w[1..][1..] == w[2..];
  }

  /** A fused addition or subtraction costs one cycle. */
  lemma EstimateOfSum(w: seq<Inst>, pc: u64, version: nat)
    requires |w| > 0 && (w[0].op.ADD? || w[0].op.SUB?)
    ensures EstimateCycles(Fuse(w, pc, version).inst) == 1
  {
  }

  /** The other fused pairs cost no more than the dearer of their parts. */
  lemma EstimateOfPair(w: seq<Inst>, pc: u64, version: nat)
    requires |w| > 1 && !w[0].op.ADD? && !w[0].op.SUB? && Fuse(w, pc, version).parts > 1
    ensures EstimateCycles(Fuse(w, pc, version).inst) <= EstimateCycles(w[0]) + EstimateCycles(w[1])
  {
    hide RuleAdc, RuleAdd3, RuleAdcs, RuleSbb, RuleSbbs, WrapI32, FitsI32;
  }

  lemma EstimateOfFused(w: seq<Inst>, pc: u64, version: nat)
    requires |w| > 0
    ensures EstimateCycles(Fuse(w, pc, version).inst) <= SumCost(EstimateCycles, w[..Fuse(w, pc, version).parts])
  {
    hide EstimateCycles;
    var f := Fuse(w, pc, version);
    var p := w[..f.parts];
    if f.parts == 1 {
      assert p == [w[0]];
    } else {
      CostOfTwo(EstimateCycles, p);
      EstimateAtLeastOne(p[0]);
      if w[0].op.ADD? || w[0].op.SUB? {
        EstimateOfSum(w, pc, version);
      } else {
        EstimateOfPair(w, pc, version);
      }
    }
  }

  lemma EstimateAtLeastOne(i: Inst)
    ensures EstimateCycles(i) >= 1
  {
  }

  /** `estimate_cycles` makes fusion pay. */
  lemma EstimatePays()
    ensures FusionPays(EstimateCycles)
  {
    forall w: seq<Inst>, pc: u64, version: nat | |w| > 0
      ensures EstimateCycles(Fuse(w, pc, version).inst) <= SumCost(EstimateCycles, w[..Fuse(w, pc, version).parts])
    {
      EstimateOfFused(w, pc, version);
    }
  }

  lemma ConstantPays()
    ensures FusionPays(ConstantCycles)
  {
    forall w: seq<Inst>, pc: u64, version: nat | |w| > 0
      ensures ConstantCycles(Fuse(w, pc, version).inst) <= SumCost(ConstantCycles, w[..Fuse(w, pc, version).parts])
    {
      CostsAtLeastOne(ConstantCycles, w[..Fuse(w, pc, version).parts]);
    }
  }

  // ---- One raw step at a time through the parts of a fused instruction ----

  function Raw(cfg: Config): Config {
    cfg.(mop := false)
  }

  function Mop(cfg: Config): Config {
    cfg.(mop := true)
  }

  /** The instructions of `w` follow each other in memory from `pc` on. */
  ghost predicate Decodes(isa: Isa, m: Mem, pc: u64, w: seq<Inst>)
    decreases |w|
  {
    w == [] || (DecodeRaw(isa, m, pc) == Ok(w[0]) && Decodes(isa, m, Plus(pc, w[0].len), w[1..]))
  }

  lemma {:induction false} AheadDecodes(isa: Isa, m: Mem, pc: u64, n: nat, k: nat)
    requires k <= |Ahead(isa, m, pc, n)|
    ensures Decodes(isa, m, pc, Ahead(isa, m, pc, n)[..k])
    decreases k
  {
    hide DecodeRaw;
    if k > 0 {
      var i := DecodeRaw(isa, m, pc).value;
      AheadDecodes(isa, m, Plus(pc, i.len), n - 1, k - 1);
      assert Ahead(isa, m, pc, n)[..k][1..] == Ahead(isa, m, Plus(pc, i.len), n - 1)[..k - 1];
    }
  }

  /** The last part of a fused instruction: it cannot fail, and changes registers and pc only. */
  predicate Quiet(op: Op) {
    Computes(op) || op.AUIPC? || op.JALR?
  }

  /** Any part but the last: pc goes on to the next. */
  predicate Falls(op: Op) {
    Computes(op) || op.AUIPC?
  }

  predicate GroupShape(w: seq<Inst>) {
    && (forall k :: 0 <= k < |w| ==> Quiet(w[k].op))
    && (forall k :: 0 <= k < |w| - 1 ==> Falls(w[k].op))
  }

  lemma FusedGroupShape(w: seq<Inst>, pc: u64, version: nat)
    requires |w| > 0 && Fuse(w, pc, version).parts > 1
    ensures GroupShape(w[..Fuse(w, pc, version).parts])
  {
  }

  /** A quiet instruction behaves the same whatever the cycle counter says. */
  lemma QuietStep(env: Env, i: Inst, s: State, c: u64)
    requires Quiet(i.op)
    ensures Execute(env, i, s).err.None?
    ensures var t := Execute(env, i, s).st;
            && t == s.(regs := t.regs, pc := t.pc)
            && (Falls(i.op) ==> t.pc == Plus(s.pc, i.len))
            && Execute(env, i, s.(cycles := c)) == Outcome(t.(cycles := c), None)
  {
    hide Value, Upd, ClearLowBit;
  }

  /** The state after the group, its cost paid. */
  function AfterGroup(cfg: Config, s: State, w: seq<Inst>): State
    requires s.cycles + SumCost(cfg.cost, w) <= s.maxCycles
  {
    ExecSeq(cfg.env, w, s).st.(cycles := s.cycles + SumCost(cfg.cost, w))
  }

  /** A raw run that halts goes through every part of the group, paying for each. */
  lemma {:induction false} RawGroup(cfg: Config, s: State, w: seq<Inst>, n: nat)
    requires GroupShape(w) && Decodes(cfg.isa, s.mem, s.pc, w)
    requires s.running && RunN(Raw(cfg), s, n).Halted?
    ensures ExecSeq(cfg.env, w, s).err.None? && |w| <= n
    ensures w == [] || s.cycles + SumCost(cfg.cost, w) <= s.maxCycles
    ensures w == [] || RunN(Raw(cfg), s, n) == RunN(Raw(cfg), AfterGroup(cfg, s, w), n - |w|)
    decreases |w|
  {
    hide Execute, DecodeRaw;
    if w != [] {
      var i := w[0];
      var paid := s.(cycles := s.cycles + cfg.cost(i));
      assert Step(Raw(cfg), s) == Charge(Raw(cfg), i, s);
      QuietStep(cfg.env, i, s, s.cycles + cfg.cost(i));
      var t := Execute(cfg.env, i, s).st;
      var t' := t.(cycles := s.cycles + cfg.cost(i));
      assert Step(Raw(cfg), s) == Outcome(t', None);
      if |w| > 1 {
        assert GroupShape(w[1..]);
        RawGroup(cfg, t', w[1..], n - 1);
        SeqCycles(cfg.env, w[1..], t, s.cycles + cfg.cost(i));
      } else {
        assert w[1..] == [];
      }
    }
  }

  lemma {:induction false} SeqCycles(env: Env, w: seq<Inst>, s: State, c: u64)
    requires forall k :: 0 <= k < |w| ==> Quiet(w[k].op)
    ensures ExecSeq(env, w, s).err.None?
    ensures ExecSeq(env, w, s.(cycles := c)) == Outcome(ExecSeq(env, w, s).st.(cycles := c), None)
  {
    hide Execute;
    if w != [] {
      QuietStep(env, w[0], s, c);
      SeqCycles(env, w[1..], Execute(env, w[0], s).st, c);
    }
  }

  // ---- One instruction, with fewer cycles on the clock ----

  /** `f` is where the fused machine is when the raw machine is at `r`. */
  ghost predicate Leads(f: State, r: State) {
    f == r.(cycles := f.cycles) && f.cycles <= r.cycles
  }

  lemma {:induction false} AskUnread(env: Env, k: nat, s: State, c: u64)
    requires CycleBlind(env) && k <= |env.syscalls|
    ensures AskSyscalls(env, k, s.(cycles := c)) == AskSyscalls(env, k, s)
    decreases |env.syscalls| - k
  {
    if k < |env.syscalls| {
      AskUnread(env, k + 1, s, c);
      assert env.syscalls[k](s.regs, s.mem, c) == env.syscalls[k](s.regs, s.mem, s.cycles);
    }
  }

  lemma CallLeads(env: Env, i: Inst, f: State, r: State)
    requires CycleBlind(env) && Leads(f, r) && i.op.ECALL? && EnvironmentCall(env, i, r).err.None?
    ensures EnvironmentCall(env, i, f).err.None? && Leads(EnvironmentCall(env, i, f).st, EnvironmentCall(env, i, r).st)
  {
    AskUnread(env, 0, r, f.cycles);
  }

  /** What succeeds with more cycles on the clock succeeds with fewer. */
  lemma ExecuteLeads(env: Env, i: Inst, f: State, r: State)
    requires Polite(env) && Leads(f, r) && Execute(env, i, r).err.None?
    ensures Execute(env, i, f).err.None? && Leads(Execute(env, i, f).st, Execute(env, i, r).st)
  {
    hide EnvironmentCall;
    if i.op.ECALL? {
      assert Execute(env, i, f) == EnvironmentCall(env, i, f) && Execute(env, i, r) == EnvironmentCall(env, i, r);
      CallLeads(env, i, f, r);
    } else {
      hide Execute;
      assert Recount(r, f.cycles, r.maxCycles) == f;
      CountersUnread(env, i, r, f.cycles, r.maxCycles);
    }
  }

  /** No SBB match in the program leaves its first SLTU's second source open. */
  ghost predicate NoLooseSbb(isa: Isa, m: Mem) {
    forall pc: u64 :: !LooseSbb(Ahead(isa, m, pc, 5))
  }

  lemma NoLooseSbbKept(isa: Isa, m: Mem, m': Mem)
    requires NoLooseSbb(isa, m) && SameCode(m, m')
    ensures NoLooseSbb(isa, m')
  {
    forall pc: u64
      ensures !LooseSbb(Ahead(isa, m', pc, 5))
    {
      SameAhead(isa, m, m', pc, 5);
    }
  }

  // ---- The simulation ----

  ghost predicate Hypotheses(cfg: Config) {
    cfg.isa.version >= 2 && WellFormed(cfg.isa) && Polite(cfg.env) && FusionPays(cfg.cost)
  }

  /** The fused run that starts at `f` halts within `n` steps where the raw run halts. */
  ghost predicate Matches(cfg: Config, f: State, n: nat, end: Progress) {
    exists k: nat :: k <= n && RunN(Mop(cfg), f, k).Halted? && end.Halted?
      && RunN(Mop(cfg), f, k).code == end.code && Leads(RunN(Mop(cfg), f, k).st, end.st)
  }

  lemma MatchesStep(cfg: Config, f: State, f': State, n: nat, m: nat, end: Progress)
    requires f.running && Step(Mop(cfg), f) == Outcome(f', None)
    requires Matches(cfg, f', m, end) && m < n
    ensures Matches(cfg, f, n, end)
  {
    hide Step;
    var k: nat :| k <= m && RunN(Mop(cfg), f', k).Halted? && end.Halted?
      && RunN(Mop(cfg), f', k).code == end.code && Leads(RunN(Mop(cfg), f', k).st, end.st);
    assert RunN(Mop(cfg), f, k + 1) == RunN(Mop(cfg), f', k);
  }

  lemma FactoryIsWellFormed(isa: Isa, k: nat, bits: nat)
    requires WellFormed(isa) && k <= |isa.factories| && FirstMatch(isa, k, bits).Some?
    ensures WellFormedInst(FirstMatch(isa, k, bits).value)
    decreases |isa.factories| - k
  {
    if isa.factories[k](bits, isa.version).None? {
      FactoryIsWellFormed(isa, k + 1, bits);
    }
  }

  lemma DecodedIsWellFormed(isa: Isa, m: Mem, pc: u64)
    requires WellFormed(isa) && DecodeRaw(isa, m, pc).Ok?
    ensures WellFormedInst(DecodeRaw(isa, m, pc).value)
  {
    FactoryIsWellFormed(isa, 0, FetchBits(m, pc).value);
  }

  lemma AheadTwo(isa: Isa, m: Mem, pc: u64)
    requires WellFormed(isa) && |Ahead(isa, m, pc, 5)| >= 2
    ensures WellFormedInst(Ahead(isa, m, pc, 5)[0]) && WellFormedInst(Ahead(isa, m, pc, 5)[1])
  {
    hide DecodeRaw;
    DecodedIsWellFormed(isa, m, pc);
    var next := Plus(pc, DecodeRaw(isa, m, pc).value.len);
    assert Ahead(isa, m, pc, 5)[1] == Ahead(isa, m, next, 4)[0];
    DecodedIsWellFormed(isa, m, next);
  }

  /** A LUI+JALR whose immediates overflow jumps beyond any memory, so a raw run that halts never
      meets one. */
  lemma NoWrappingFarJump(cfg: Config, r: State, w: seq<Inst>, n: nat)
    requires Hypotheses(cfg) && w == Ahead(cfg.isa, r.mem, r.pc, 5) && r.running
    requires WrappingFarJump(w, cfg.isa.version)
    ensures !RunN(Raw(cfg), r, n).Halted?
  {
    hide Ahead, Execute, ExecSeq, DecodeRaw;
    if RunN(Raw(cfg), r, n).Halted? {
      var p := w[..2];
      AheadDecodes(cfg.isa, r.mem, r.pc, 5, 2);
      RawGroup(cfg, r, p, n);
      LuiJalr(cfg.env, p, cfg.isa.version, r);
      AheadTwo(cfg.isa, r.mem, r.pc);
      var t := AfterGroup(cfg, r, p);
      FarTarget(w[0].imm, w[1].imm);
      OutOfMemory(cfg, t, n - 2);
      assert false;
    }
  }

  lemma FarTarget(a: i32, b: i32)
    requires a % 4096 == 0 && -2048 <= b < 2048 && !FitsI32(a + b)
    ensures a == -0x8000_0000 && b < 0
    ensures ClearLowBit(Wrap(a + b)) >= 0x8000_0000_0000_0000
  {
  }

  lemma OutOfMemory(cfg: Config, t: State, n: nat)
    requires t.running && t.pc >= 0x8000_0000_0000_0000
    ensures !RunN(Raw(cfg), t, n).Halted?
  {
  }

  /** One fused step leads the group it replaces. */
  lemma FusedLeads(cfg: Config, f: State, r: State, w: seq<Inst>)
    requires Hypotheses(cfg) && Leads(f, r)
    requires w == Ahead(cfg.isa, r.mem, r.pc, 5) && |w| > 0 && Fuse(w, r.pc, cfg.isa.version).parts > 1
    requires !LooseSbb(w) && !WrappingFarJump(w, cfg.isa.version)
    requires r.cycles + SumCost(cfg.cost, w[..Fuse(w, r.pc, cfg.isa.version).parts]) <= r.maxCycles
    ensures var p := w[..Fuse(w, r.pc, cfg.isa.version).parts];
            && Step(Mop(cfg), f).err.None?
            && Leads(Step(Mop(cfg), f).st, AfterGroup(cfg, r, p))
            && AfterGroup(cfg, r, p).mem == r.mem
  {
    hide Execute, ExecSeq, DecodeRaw, Ahead;
    var fz := Fuse(w, r.pc, cfg.isa.version);
    var p := w[..fz.parts];
    FusedGroupShape(w, r.pc, cfg.isa.version);
    assert cfg.cost(fz.inst) <= SumCost(cfg.cost, p);
    var c := f.cycles + cfg.cost(fz.inst);
    var paid := r.(cycles := c);
    assert f.(cycles := c) == paid;
    FusedStep(cfg.env, w, cfg.isa.version, paid);
    SeqCycles(cfg.env, p, r, c);
    QuietMemory(cfg.env, p, r);
    assert Step(Mop(cfg), f) == Charge(Mop(cfg), fz.inst, f);
  }

  /** One fused step against the raw steps it replaces. */
  lemma FusedGroup(cfg: Config, f: State, r: State, w: seq<Inst>, n: nat)
    requires Hypotheses(cfg) && Leads(f, r) && r.running && RunN(Raw(cfg), r, n).Halted?
    requires w == Ahead(cfg.isa, r.mem, r.pc, 5) && |w| > 0 && Fuse(w, r.pc, cfg.isa.version).parts > 1
    requires !LooseSbb(w)
    ensures var p := w[..Fuse(w, r.pc, cfg.isa.version).parts];
            && |p| <= n && r.cycles + SumCost(cfg.cost, p) <= r.maxCycles
            && RunN(Raw(cfg), r, n) == RunN(Raw(cfg), AfterGroup(cfg, r, p), n - |p|)
            && Step(Mop(cfg), f).err.None?
            && Leads(Step(Mop(cfg), f).st, AfterGroup(cfg, r, p))
            && AfterGroup(cfg, r, p).mem == r.mem
  {
    hide Execute, ExecSeq, DecodeRaw, Ahead, Fuse, Step;
    var parts := Fuse(w, r.pc, cfg.isa.version).parts;
    FusedGroupShape(w, r.pc, cfg.isa.version);
    AheadDecodes(cfg.isa, r.mem, r.pc, 5, parts);
    RawGroup(cfg, r, w[..parts], n);
    if WrappingFarJump(w, cfg.isa.version) {
      NoWrappingFarJump(cfg, r, w, n);
    } else {
      FusedLeads(cfg, f, r, w);
    }
  }

  lemma {:induction false} QuietMemory(env: Env, w: seq<Inst>, s: State)
    requires forall k :: 0 <= k < |w| ==> Quiet(w[k].op)
    ensures ExecSeq(env, w, s).st.mem == s.mem
  {
    hide Execute;
    if w != [] {
      QuietStep(env, w[0], s, s.cycles);
      QuietMemory(env, w[1..], Execute(env, w[0], s).st);
    }
  }

  /** The same instruction on both machines. */
  lemma PlainStep(cfg: Config, f: State, r: State, i: Inst)
    requires Hypotheses(cfg) && Leads(f, r) && r.running
    requires DecodeRaw(cfg.isa, r.mem, r.pc) == Ok(i) && DecodeMop(cfg.isa, r.mem, r.pc) == Ok(i)
    requires Step(Raw(cfg), r).err.None?
    ensures Step(Mop(cfg), f).err.None? && Leads(Step(Mop(cfg), f).st, Step(Raw(cfg), r).st)
    ensures SameCode(r.mem, Step(Raw(cfg), r).st.mem)
  {
    hide Execute, DecodeRaw, DecodeMop;
    var c := cfg.cost(i);
    ExecuteLeads(cfg.env, i, f.(cycles := f.cycles + c), r.(cycles := r.cycles + c));
    ExecuteKeepsCode(cfg.env, i, r.(cycles := r.cycles + c));
  }

  /** If the run without fusion halts within the cycle limit, so does the run with fusion: with the
      same exit code, registers, pc and memory, in no more steps and for no more cycles. */
  lemma {:induction false} FusionPreservesRuns(cfg: Config, f: State, r: State, n: nat)
    requires Hypotheses(cfg) && NoLooseSbb(cfg.isa, r.mem)
    requires Leads(f, r) && RunN(Raw(cfg), r, n).Halted?
    ensures Matches(cfg, f, n, RunN(Raw(cfg), r, n))
    decreases n
  {
    hide Step, Fuse, Ahead, NoLooseSbb, SameCode;
    if !r.running {
      assert RunN(Mop(cfg), f, 0) == Halted(f.exitCode, f);
    } else {
      var w := Ahead(cfg.isa, r.mem, r.pc, 5);
      HeadDecodes(cfg, r, n);
      var fz := Fuse(w, r.pc, cfg.isa.version);
      assert !LooseSbb(w) by { LooseAt(cfg.isa, r.mem, r.pc); }
      if fz.parts == 1 {
        PlainStep(cfg, f, r, w[0]);
        var r' := Step(Raw(cfg), r).st;
        NoLooseSbbKept(cfg.isa, r.mem, r'.mem);
        FusionPreservesRuns(cfg, Step(Mop(cfg), f).st, r', n - 1);
        MatchesStep(cfg, f, Step(Mop(cfg), f).st, n, n - 1, RunN(Raw(cfg), r, n));
      } else {
        FusedGroup(cfg, f, r, w, n);
        var p := w[..fz.parts];
        FusionPreservesRuns(cfg, Step(Mop(cfg), f).st, AfterGroup(cfg, r, p), n - |p|);
        MatchesStep(cfg, f, Step(Mop(cfg), f).st, n, n - |p|, RunN(Raw(cfg), r, n));
      }
    }
  }

  /** The same exit, registers, pc and memory, for no more cycles. */
  ghost predicate SameEnd(fused: Progress, raw: Progress) {
    && fused.Halted? && raw.Halted? && fused.code == raw.code
    && fused.st.regs == raw.st.regs && fused.st.pc == raw.st.pc && fused.st.mem == raw.st.mem
    && fused.st.cycles <= raw.st.cycles
  }

  /** With the estimated cycle costs: whenever a program halts without fusion it halts with fusion,
      in the same way, in no more steps and no more cycles. */
  lemma EstimatedRunsAgree(isa: Isa, env: Env, s: State, n: nat)
    requires isa.version >= 2 && WellFormed(isa) && Polite(env) && NoLooseSbb(isa, s.mem)
    requires RunN(Config(isa, false, env, EstimateCycles), s, n).Halted?
    ensures exists k: nat :: k <= n &&
              SameEnd(RunN(Config(isa, true, env, EstimateCycles), s, k),
                      RunN(Config(isa, false, env, EstimateCycles), s, n))
  {
    hide RunN, NoLooseSbb, WellFormed, Polite;
    var cfg := Config(isa, false, env, EstimateCycles);
    EstimatePays();
    assert Raw(cfg) == cfg && Mop(cfg) == Config(isa, true, env, EstimateCycles);
    FusionPreservesRuns(cfg, s, s, n);
    var k: nat :| k <= n && RunN(Mop(cfg), s, k).Halted? && RunN(Mop(cfg), s, k).code == RunN(cfg, s, n).code
      && Leads(RunN(Mop(cfg), s, k).st, RunN(cfg, s, n).st);
    assert SameEnd(RunN(Mop(cfg), s, k), RunN(cfg, s, n));
  }

  lemma LooseAt(isa: Isa, m: Mem, pc: u64)
    requires NoLooseSbb(isa, m)
    ensures !LooseSbb(Ahead(isa, m, pc, 5))
  {
  }

  /** A run that halts later decodes its next instruction and executes it. */
  lemma HeadDecodes(cfg: Config, r: State, n: nat)
    requires r.running && RunN(Raw(cfg), r, n).Halted?
    ensures n > 0 && Step(Raw(cfg), r).err.None?
    ensures RunN(Raw(cfg), r, n) == RunN(Raw(cfg), Step(Raw(cfg), r).st, n - 1)
    ensures var w := Ahead(cfg.isa, r.mem, r.pc, 5);
            && |w| > 0 && DecodeRaw(cfg.isa, r.mem, r.pc) == Ok(w[0])
            && DecodeMop(cfg.isa, r.mem, r.pc) == Ok(Fuse(w, r.pc, cfg.isa.version).inst)
  {
    hide Execute, Fuse;
  }
}
