/** The converse of the whole-run theorem: fusion makes no program halt that would not, but for the
    cycles it saves. */
module ReflectedRun {
  import opened Words
  import opened Outcomes
  import opened Pages
  import opened Instructions
  import opened Exec
  import opened Decode
  import opened Fusion
  import opened FusionProofs
  import opened Run
  import opened KeepCode
  import opened FusedRun
  import M = Machine
  import Decoder

  ghost predicate CycleError(e: Error) {
    e.CyclesExceeded? || e.CyclesOverflow?
  }

  /** The run without fusion stops for want of cycles. */
  ghost predicate RunsOut(cfg: Config, s: State) {
    exists n: nat :: RunN(Raw(cfg), s, n).Stopped? && CycleError(RunN(Raw(cfg), s, n).error)
  }

  lemma RunsOutNow(cfg: Config, s: State)
    requires s.running && Step(Raw(cfg), s).err.Some? && CycleError(Step(Raw(cfg), s).err.value)
    ensures RunsOut(cfg, s)
  {
    hide Step;
    assert RunN(Raw(cfg), s, 1).Stopped?;
  }

  lemma RunsOutLater(cfg: Config, s: State, n: nat, t: State)
    requires RunN(Raw(cfg), s, n) == Running(t) && RunsOut(cfg, t)
    ensures RunsOut(cfg, s)
  {
    hide RunN;
    var k: nat :| RunN(Raw(cfg), t, k).Stopped? && CycleError(RunN(Raw(cfg), t, k).error);
    RunSplit(Raw(cfg), s, n, k);
    assert RunN(Raw(cfg), s, n + k) == RunN(Raw(cfg), t, k);
  }

  /** Without fusion a group runs through, or runs out of cycles. */
  lemma {:induction false} GroupForward(cfg: Config, s: State, w: seq<Inst>)
    requires GroupShape(w) && Decodes(cfg.isa, s.mem, s.pc, w) && s.running
    ensures s.cycles + SumCost(cfg.cost, w) <= s.maxCycles ==> RunN(Raw(cfg), s, |w|) == Running(AfterGroup(cfg, s, w))
    ensures w != [] && s.cycles + SumCost(cfg.cost, w) > s.maxCycles ==> RunsOut(cfg, s)
    decreases |w|
  {
    hide Execute, DecodeRaw, RunsOut;
    if w != [] {
      var i := w[0];
      assert Step(Raw(cfg), s) == Charge(Raw(cfg), i, s);
      if s.cycles + cfg.cost(i) > s.maxCycles {
        RunsOutNow(cfg, s);
      } else {
        QuietStep(cfg.env, i, s, s.cycles + cfg.cost(i));
        var t := Execute(cfg.env, i, s).st;
        var t' := t.(cycles := s.cycles + cfg.cost(i));
        assert Step(Raw(cfg), s) == Outcome(t', None);
        OneStep(cfg, s, t', |w| - 1);
        if |w| > 1 {
          assert GroupShape(w[1..]);
          GroupForward(cfg, t', w[1..]);
          SeqCycles(cfg.env, w[1..], t, s.cycles + cfg.cost(i));
          if s.cycles + SumCost(cfg.cost, w) > s.maxCycles {
            RunsOutLater(cfg, s, 1, t');
          }
        } else {
          assert w[1..] == [];
          assert ExecSeq(cfg.env, w, s) == Outcome(t, None);
          assert AfterGroup(cfg, s, w) == t';
        }
      }
    }
  }

  lemma OneStep(cfg: Config, s: State, t: State, n: nat)
    requires s.running && Step(Raw(cfg), s) == Outcome(t, None)
    ensures RunN(Raw(cfg), s, n + 1) == RunN(Raw(cfg), t, n)
    ensures t.running ==> RunN(Raw(cfg), s, 1) == Running(t)
  {
    hide Step;
    assert RunN(Raw(cfg), s, 1) == RunN(Raw(cfg), t, 0);
  }

  lemma CallFollows(env: Env, i: Inst, f: State, r: State)
    requires CycleBlind(env) && Leads(f, r) && i.op.ECALL? && EnvironmentCall(env, i, f).err.None?
    ensures var o := EnvironmentCall(env, i, r);
            if o.err.Some? then CycleError(o.err.value) else Leads(EnvironmentCall(env, i, f).st, o.st)
  {
    AskUnread(env, 0, r, f.cycles);
  }

  /** One instruction that succeeds with fewer cycles on the clock succeeds with more, unless they
      run out. */
  lemma ExecuteFollows(env: Env, i: Inst, f: State, r: State)
    requires Polite(env) && Leads(f, r) && Execute(env, i, f).err.None?
    ensures var o := Execute(env, i, r);
            if o.err.Some? then CycleError(o.err.value) else Leads(Execute(env, i, f).st, o.st)
  {
    hide EnvironmentCall;
    if i.op.ECALL? {
      assert Execute(env, i, f) == EnvironmentCall(env, i, f) && Execute(env, i, r) == EnvironmentCall(env, i, r);
      CallFollows(env, i, f, r);
    } else {
      hide Execute;
      assert Recount(r, f.cycles, r.maxCycles) == f;
      CountersUnread(env, i, r, f.cycles, r.maxCycles);
    }
  }

  lemma PlainFollows(cfg: Config, f: State, r: State, i: Inst)
    requires Hypotheses(cfg) && Leads(f, r) && r.running
    requires DecodeRaw(cfg.isa, r.mem, r.pc) == Ok(i) && DecodeMop(cfg.isa, r.mem, r.pc) == Ok(i)
    requires Step(Mop(cfg), f).err.None?
    ensures RunsOut(cfg, r)
         || (&& Step(Raw(cfg), r).err.None? && Leads(Step(Mop(cfg), f).st, Step(Raw(cfg), r).st)
             && SameCode(r.mem, Step(Raw(cfg), r).st.mem))
  {
    hide Execute, DecodeRaw, DecodeMop, RunsOut, SameCode;
    var c := cfg.cost(i);
    assert Step(Raw(cfg), r) == Charge(Raw(cfg), i, r) && Step(Mop(cfg), f) == Charge(Mop(cfg), i, f);
    if r.cycles + c > r.maxCycles {
      RunsOutNow(cfg, r);
    } else {
      ExecuteFollows(cfg.env, i, f.(cycles := f.cycles + c), r.(cycles := r.cycles + c));
      ExecuteKeepsCode(cfg.env, i, r.(cycles := r.cycles + c));
      if Step(Raw(cfg), r).err.Some? {
        RunsOutNow(cfg, r);
      }
    }
  }

  /** Where an overflowing LUI+JALR lands when fused: in the last 2048 bytes below 2^31. */
  const STRAY: nat := 0x7FFF_F800

  /** No LUI+JALR pair in the program has immediates that overflow. */
  ghost predicate NoWrappingJump(isa: Isa, m: Mem) {
    forall pc: u64 :: !WrappingFarJump(Ahead(isa, m, pc, 5), isa.version)
  }

  /** A fused jump that overflows finds no memory to land in, or there is none. */
  ghost predicate NoStrayLanding(isa: Isa, m: Mem) {
    |m.data| <= STRAY || NoWrappingJump(isa, m)
  }

  lemma NoStrayLandingKept(isa: Isa, m: Mem, m': Mem)
    requires NoStrayLanding(isa, m) && SameCode(m, m')
    ensures NoStrayLanding(isa, m')
  {
    if |m.data| > STRAY {
      forall pc: u64
        ensures !WrappingFarJump(Ahead(isa, m', pc, 5), isa.version)
      {
        SameAhead(isa, m, m', pc, 5);
      }
    }
  }

  lemma StrayTarget(a: i32, b: i32)
    requires a == -0x8000_0000 && -2048 <= b < 0
    ensures ClearLowBit(Wrap(WrapI32(a + b))) >= STRAY
  {
  }

  /** In a memory that ends there, a fused run that takes such a jump never halts. */
  lemma StrayJumpDies(cfg: Config, f: State, r: State, w: seq<Inst>, k: nat)
    requires Hypotheses(cfg) && Leads(f, r) && r.running && w == Ahead(cfg.isa, r.mem, r.pc, 5)
    requires WrappingFarJump(w, cfg.isa.version) && |r.mem.data| <= STRAY
    ensures !RunN(Mop(cfg), f, k).Halted?
  {
    hide Ahead, DecodeRaw, DecodeMop, FusionPays, ClearLowBit, Wrap, WrapI32, FitsI32, Fuse, Step, Execute, RunN,
      RuleLui;
    if RunN(Mop(cfg), f, k).Halted? {
      MopDecodes(cfg, f, r, k);
      AheadTwo(cfg.isa, r.mem, r.pc);
      var i := Fuse(w, r.pc, cfg.isa.version).inst;
      StrayImmediates(w, cfg.isa.version);
      FusedJump(cfg, f, i);
      StrayStops(cfg, Step(Mop(cfg), f).st, k - 1);
    }
  }

  lemma StrayImmediates(w: seq<Inst>, version: nat)
    requires WrappingFarJump(w, version) && WellFormedInst(w[0]) && WellFormedInst(w[1])
    ensures Fuse(w, 0, version).inst.op.FAR_JUMP_ABS?
    ensures forall pc: u64 :: Fuse(w, pc, version) == Fuse(w, 0, version)
    ensures ClearLowBit(Wrap(Fuse(w, 0, version).inst.imm)) >= STRAY
  {
    hide ClearLowBit, Wrap, WrapI32;
    FarTarget(w[0].imm, w[1].imm);
    StrayTarget(w[0].imm, w[1].imm);
  }

  lemma FusedJump(cfg: Config, f: State, i: Inst)
    requires DecodeMop(cfg.isa, f.mem, f.pc) == Ok(i) && i.op.FAR_JUMP_ABS? && Step(Mop(cfg), f).err.None?
    ensures var t := Step(Mop(cfg), f).st;
            t.pc == ClearLowBit(Wrap(i.imm)) && t.mem == f.mem && t.running == f.running
  {
    hide DecodeMop, ClearLowBit, Wrap, Upd;
  }

  lemma StrayStops(cfg: Config, t: State, k: nat)
    requires t.running && t.pc >= STRAY >= |t.mem.data|
    ensures !RunN(Mop(cfg), t, k).Halted?
  {
  }

  /** The run without fusion halts where `end` did, or runs out of cycles. */
  ghost predicate Follows(cfg: Config, r: State, end: Progress) {
    RunsOut(cfg, r) || exists n: nat :: SameEnd(end, RunN(Raw(cfg), r, n))
  }

  lemma FollowsLater(cfg: Config, r: State, n: nat, t: State, end: Progress)
    requires t.running ==> RunN(Raw(cfg), r, n) == Running(t)
    requires !t.running ==> RunN(Raw(cfg), r, n) == RunN(Raw(cfg), t, 0)
    requires Follows(cfg, t, end)
    ensures Follows(cfg, r, end)
  {
    hide RunN, RunsOut;
    if t.running {
      if RunsOut(cfg, t) {
        RunsOutLater(cfg, r, n, t);
      } else {
        var k: nat :| SameEnd(end, RunN(Raw(cfg), t, k));
        RunSplit(Raw(cfg), r, n, k);
        assert SameEnd(end, RunN(Raw(cfg), r, n + k));
      }
    } else {
      EndedFollows(cfg, r, n, t, end);
    }
  }

  lemma EndedFollows(cfg: Config, r: State, n: nat, t: State, end: Progress)
    requires !t.running && RunN(Raw(cfg), r, n) == RunN(Raw(cfg), t, 0) && Follows(cfg, t, end)
    ensures Follows(cfg, r, end)
  {
    assert forall k: nat :: RunN(Raw(cfg), t, k) == RunN(Raw(cfg), t, 0);
    assert SameEnd(end, RunN(Raw(cfg), r, n));
  }

  /** After `n` steps the plain run stands where the fused one stands after one. */
  ghost predicate Reaches(cfg: Config, f: State, r: State, n: nat, r': State) {
    && Leads(Step(Mop(cfg), f).st, r')
    && NoLooseSbb(cfg.isa, r'.mem) && NoStrayLanding(cfg.isa, r'.mem)
    && (r'.running ==> RunN(Raw(cfg), r, n) == Running(r'))
    && (!r'.running ==> RunN(Raw(cfg), r, n) == RunN(Raw(cfg), r', 0))
  }

  lemma PlainReaches(cfg: Config, f: State, r: State, i: Inst)
    requires Hypotheses(cfg) && NoLooseSbb(cfg.isa, r.mem) && NoStrayLanding(cfg.isa, r.mem)
    requires Leads(f, r) && r.running && Step(Mop(cfg), f).err.None?
    requires DecodeRaw(cfg.isa, r.mem, r.pc) == Ok(i) && DecodeMop(cfg.isa, r.mem, r.pc) == Ok(i)
    ensures RunsOut(cfg, r) || Reaches(cfg, f, r, 1, Step(Raw(cfg), r).st)
  {
    hide Step, NoLooseSbb, NoStrayLanding, SameCode, RunsOut, Leads;
    PlainFollows(cfg, f, r, i);
    if !RunsOut(cfg, r) {
      var r' := Step(Raw(cfg), r).st;
      NoLooseSbbKept(cfg.isa, r.mem, r'.mem);
      NoStrayLandingKept(cfg.isa, r.mem, r'.mem);
      OneStep(cfg, r, r', 0);
    }
  }

  lemma GroupReaches(cfg: Config, f: State, r: State, w: seq<Inst>, n: nat) returns (r': State)
    requires Hypotheses(cfg) && NoLooseSbb(cfg.isa, r.mem) && NoStrayLanding(cfg.isa, r.mem)
    requires Leads(f, r) && r.running && Step(Mop(cfg), f).err.None?
    requires w == Ahead(cfg.isa, r.mem, r.pc, 5) && |w| > 0
    requires DecodeMop(cfg.isa, r.mem, r.pc) == Ok(Fuse(w, r.pc, cfg.isa.version).inst)
    requires n == Fuse(w, r.pc, cfg.isa.version).parts > 1 && !WrappingFarJump(w, cfg.isa.version)
    ensures RunsOut(cfg, r) || Reaches(cfg, f, r, n, r')
  {
    hide Step, Fuse, Ahead, NoLooseSbb, NoStrayLanding, RunsOut, WrappingFarJump;
    r' := r;
    LooseAt(cfg.isa, r.mem, r.pc);
    GroupOf(cfg, r, w);
    var p := w[..n];
    GroupForward(cfg, r, p);
    if r.cycles + SumCost(cfg.cost, p) <= r.maxCycles {
      r' := AfterGroup(cfg, r, p);
      FusedLeads(cfg, f, r, w);
      StillRunning(Raw(cfg), r, |p|);
    }
  }

  /** One instruction of a fused run that halts: the plain run gets as far, or lacks the cycles. */
  lemma NextFollows(cfg: Config, f: State, r: State, k: nat) returns (n: nat, r': State)
    requires Hypotheses(cfg) && NoLooseSbb(cfg.isa, r.mem) && NoStrayLanding(cfg.isa, r.mem)
    requires Leads(f, r) && r.running && RunN(Mop(cfg), f, k).Halted?
    ensures RunsOut(cfg, r) || Reaches(cfg, f, r, n, r')
  {
    hide Step, Fuse, Ahead, NoLooseSbb, NoStrayLanding, RunsOut, WrappingFarJump, Reaches, Leads, Hypotheses;
    var w := Ahead(cfg.isa, r.mem, r.pc, 5);
    MopDecodes(cfg, f, r, k);
    n := Fuse(w, r.pc, cfg.isa.version).parts;
    if n == 1 {
      r' := Step(Raw(cfg), r).st;
      PlainReaches(cfg, f, r, w[0]);
    } else {
      r' := r;
      if WrappingFarJump(w, cfg.isa.version) {
        StrayAt(cfg.isa, r.mem, r.pc);
        StrayJumpDies(cfg, f, r, w, k);
      } else {
        r' := GroupReaches(cfg, f, r, w, n);
      }
    }
  }

  /** A program that halts with fusion halts without it, in the same way, unless it runs out of the
      cycles that fusion saves. */
  lemma {:induction false} FusionReflectsRuns(cfg: Config, f: State, r: State, k: nat)
    requires Hypotheses(cfg) && NoLooseSbb(cfg.isa, r.mem) && NoStrayLanding(cfg.isa, r.mem)
    requires Leads(f, r) && RunN(Mop(cfg), f, k).Halted?
    ensures Follows(cfg, r, RunN(Mop(cfg), f, k))
    decreases k
  {
    hide Step, NoLooseSbb, NoStrayLanding, RunsOut, Follows, RunN, Leads, Hypotheses, Ahead, Fuse, DecodeMop, DecodeRaw;
    var end := RunN(Mop(cfg), f, k);
    if !r.running {
      HaltedFollows(cfg, f, r, k);
    } else {
      MopDecodes(cfg, f, r, k);
      var n, r' := NextFollows(cfg, f, r, k);
      if RunsOut(cfg, r) {
        OutFollows(cfg, r, end);
      } else {
        FusionReflectsRuns(cfg, Step(Mop(cfg), f).st, r', k - 1);
        FollowsLater(cfg, r, n, r', end);
      }
    }
  }

  lemma OutFollows(cfg: Config, r: State, end: Progress)
    requires RunsOut(cfg, r)
    ensures Follows(cfg, r, end)
  {
  }

  lemma HaltedFollows(cfg: Config, f: State, r: State, k: nat)
    requires Leads(f, r) && !r.running
    ensures Follows(cfg, r, RunN(Mop(cfg), f, k))
  {
    assert SameEnd(RunN(Mop(cfg), f, k), RunN(Raw(cfg), r, 0));
  }

  lemma StrayAt(isa: Isa, m: Mem, pc: u64)
    requires NoStrayLanding(isa, m)
    ensures WrappingFarJump(Ahead(isa, m, pc, 5), isa.version) ==> |m.data| <= STRAY
  {
  }

  lemma GroupOf(cfg: Config, r: State, w: seq<Inst>)
    requires w == Ahead(cfg.isa, r.mem, r.pc, 5) && |w| > 0 && Fuse(w, r.pc, cfg.isa.version).parts > 1
    ensures var p := w[..Fuse(w, r.pc, cfg.isa.version).parts];
            GroupShape(p) && Decodes(cfg.isa, r.mem, r.pc, p)
  {
    hide Fuse, Ahead;
    FusedGroupShape(w, r.pc, cfg.isa.version);
    AheadDecodes(cfg.isa, r.mem, r.pc, 5, Fuse(w, r.pc, cfg.isa.version).parts);
  }

  /** A fused run that halts later decodes its next instruction and executes it. */
  lemma MopDecodes(cfg: Config, f: State, r: State, k: nat)
    requires Leads(f, r) && r.running && RunN(Mop(cfg), f, k).Halted?
    ensures k > 0 && Step(Mop(cfg), f).err.None?
    ensures RunN(Mop(cfg), f, k) == RunN(Mop(cfg), Step(Mop(cfg), f).st, k - 1)
    ensures var w := Ahead(cfg.isa, r.mem, r.pc, 5);
            && |w| > 0 && DecodeRaw(cfg.isa, r.mem, r.pc) == Ok(w[0])
            && DecodeMop(cfg.isa, r.mem, r.pc) == Ok(Fuse(w, r.pc, cfg.isa.version).inst)
  {
    hide Execute, Fuse;
  }

  // ---- The two machines ----

  /** A fusing and a plain machine on the same program: where the plain one returns an exit code the
      fusing one returns it too, and where the fusing one does the plain one does or lacks the cycles;
      then they agree on registers, pc and memory, and fusion has not cost more. */
  method RunBoth(fusing: M.DefaultMachine, plain: M.DefaultMachine, d: Decoder.DefaultDecoder,
                 e: Decoder.DefaultDecoder)
    returns (a: Result<int>, b: Result<int>)
    requires d.Valid() && d.Trusts(fusing.memory) && e.Valid() && e.Trusts(plain.memory)
    requires fusing != plain && d.instructionsCache != e.instructionsCache
    requires d.isa == e.isa && d.mop && !e.mop && fusing.version >= 1
    requires fusing.env == plain.env && fusing.cost == plain.cost && fusing.St() == plain.St()
    requires Hypotheses(plain.Cfg(e)) && NoLooseSbb(e.isa, plain.memory) && forall i :: plain.cost(i) >= 1
    modifies fusing, plain, d.instructionsCache, e.instructionsCache
    ensures b.Ok? ==> a == b
    ensures a.Ok? && old(NoStrayLanding(e.isa, plain.memory)) ==> b == a || (b.Err? && CycleError(b.error))
    ensures a.Ok? && b.Ok? ==>
              && fusing.registers == plain.registers && fusing.pc == plain.pc && fusing.memory == plain.memory
              && fusing.cycles <= plain.cycles
  {
    hide RunN, NoLooseSbb, NoStrayLanding, Trusted, FusionPays, WellFormed, KeepsCode, CycleBlind;
    ghost var cfg, start := plain.Cfg(e), plain.St().(running := true);
    ghost var noStray := NoStrayLanding(e.isa, plain.memory);
    ghost var k, n;
    assert Raw(cfg) == cfg && Mop(cfg) == fusing.Cfg(d);
    a, k := fusing.RunWithDecoder(d);
    b, n := plain.RunWithDecoder(e);
    if b.Ok? {
      FusionPreservesRuns(cfg, start, start, n);
      EndsAlike(cfg, start, k, RunN(cfg, start, n), n);
    } else if a.Ok? && noStray {
      FusionReflectsRuns(cfg, start, start, k);
      EndsOrRunsOut(cfg, start, n, RunN(Mop(cfg), start, k));
    }
  }

  lemma EndsAlike(cfg: Config, s: State, k: nat, end: Progress, n: nat)
    requires Matches(cfg, s, n, end) && !RunN(Mop(cfg), s, k).Running?
    ensures SameEnd(RunN(Mop(cfg), s, k), end)
  {
    hide RunN;
    var j: nat :| j <= n && RunN(Mop(cfg), s, j).Halted? && end.Halted?
      && RunN(Mop(cfg), s, j).code == end.code && Leads(RunN(Mop(cfg), s, j).st, end.st);
    EndIsUnique(Mop(cfg), s, j, k);
  }

  lemma EndsOrRunsOut(cfg: Config, s: State, n: nat, end: Progress)
    requires Follows(cfg, s, end) && !RunN(Raw(cfg), s, n).Running?
    ensures SameEnd(end, RunN(Raw(cfg), s, n))
         || (RunN(Raw(cfg), s, n).Stopped? && CycleError(RunN(Raw(cfg), s, n).error))
  {
    hide RunN;
    if RunsOut(cfg, s) {
      var k: nat :| RunN(Raw(cfg), s, k).Stopped? && CycleError(RunN(Raw(cfg), s, k).error);
      EndIsUnique(Raw(cfg), s, k, n);
    } else {
      var k: nat :| SameEnd(end, RunN(Raw(cfg), s, k));
      EndIsUnique(Raw(cfg), s, k, n);
    }
  }
}
