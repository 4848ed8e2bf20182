/** An even pc stays even, so every fetch of a run follows the encoding's own length rule. */
module EvenPc {
  import opened Words
  import opened Pages
  import opened Instructions
  import opened Exec
  import opened Decode
  import opened Fusion
  import opened Run
  import opened Immediates

  /** Lengths are even, and so are the offsets of branches and direct jumps. */
  predicate EvenInst(i: Inst) {
    && i.len % 2 == 0
    && (i.op.BEQ? || i.op.BGE? || i.op.BGEU? || i.op.BLT? || i.op.BLTU? || i.op.BNE? || i.op.JAL? ==> i.imm % 2 == 0)
  }

  /** Branches and direct jumps take their offset from the bits, by the encoding's own formulas. */
  ghost predicate EncodedInst(i: Inst) {
    && (i.len == 2 || i.len == 4)
    && (i.op.BEQ? || i.op.BGE? || i.op.BGEU? || i.op.BLT? || i.op.BLTU? || i.op.BNE? ==>
          exists bits: u32 :: i.imm == BTypeImmediate(bits) || i.imm == CompressedBImmediate(bits))
    && (i.op.JAL? ==> exists bits: u32 :: i.imm == JTypeImmediate(bits) || i.imm == CompressedJImmediate(bits))
  }

  ghost predicate EncodedFactories(isa: Isa) {
    forall k, bits: nat :: 0 <= k < |isa.factories| && isa.factories[k](bits, isa.version).Some? ==>
      EncodedInst(isa.factories[k](bits, isa.version).value)
  }

  lemma EncodedIsEven(i: Inst)
    requires EncodedInst(i)
    ensures EvenInst(i)
  {
    hide BTypeImmediate, JTypeImmediate, CompressedBImmediate, CompressedJImmediate;
    BTypeOffsets(i.imm);
    JTypeOffsets(i.imm);
    CompressedBOffsets(i.imm);
    CompressedJOffsets(i.imm);
  }

  lemma EncodedAreEven(isa: Isa)
    requires EncodedFactories(isa)
    ensures EvenFactories(isa)
  {
    hide EncodedInst, EvenInst;
    forall k, bits: nat | 0 <= k < |isa.factories| && isa.factories[k](bits, isa.version).Some?
      ensures EvenInst(isa.factories[k](bits, isa.version).value)
    {
      EncodedIsEven(isa.factories[k](bits, isa.version).value);
    }
  }

  ghost predicate EvenFactories(isa: Isa) {
    forall k, bits: nat :: 0 <= k < |isa.factories| && isa.factories[k](bits, isa.version).Some? ==>
      EvenInst(isa.factories[k](bits, isa.version).value)
  }

  lemma {:induction false} MatchIsEven(isa: Isa, k: nat, bits: nat)
    requires EvenFactories(isa) && k <= |isa.factories| && FirstMatch(isa, k, bits).Some?
    ensures EvenInst(FirstMatch(isa, k, bits).value)
    decreases |isa.factories| - k
  {
    if isa.factories[k](bits, isa.version).None? {
      MatchIsEven(isa, k + 1, bits);
    }
  }

  lemma RawIsEven(isa: Isa, m: Mem, pc: u64)
    requires EvenFactories(isa) && DecodeRaw(isa, m, pc).Ok?
    ensures EvenInst(DecodeRaw(isa, m, pc).value)
  {
    hide FetchBits;
    MatchIsEven(isa, 0, FetchBits(m, pc).value);
  }

  ghost predicate AllEven(w: seq<Inst>) {
    forall k :: 0 <= k < |w| ==> EvenInst(w[k])
  }

  lemma {:induction false} AheadIsEven(isa: Isa, m: Mem, pc: u64, n: nat)
    requires EvenFactories(isa)
    ensures AllEven(Ahead(isa, m, pc, n))
    decreases n
  {
    hide DecodeRaw, EvenInst;
    if n > 0 && DecodeRaw(isa, m, pc).Ok? {
      RawIsEven(isa, m, pc);
      AheadIsEven(isa, m, Plus(pc, DecodeRaw(isa, m, pc).value.len), n - 1);
    }
  }

  lemma FusedAddIsEven(w: seq<Inst>, pc: u64, version: nat)
    requires |w| > 0 && AllEven(w) && w[0].op.ADD?
    ensures EvenInst(Fuse(w, pc, version).inst)
  {
  }

  /** Fusing adds lengths up, and produces no branch and no direct jump. */
  lemma FusedIsEven(w: seq<Inst>, pc: u64, version: nat)
    requires |w| > 0 && AllEven(w)
    ensures EvenInst(Fuse(w, pc, version).inst)
  {
    hide WrapI32, FitsI32, RuleAdc, RuleAdd3, RuleAdcs;
    if w[0].op.ADD? {
      FusedAddIsEven(w, pc, version);
    }
  }

  lemma DecodedIsEven(isa: Isa, mop: bool, m: Mem, pc: u64)
    requires EvenFactories(isa) && DecodeAny(isa, mop, m, pc).Ok?
    ensures EvenInst(DecodeAny(isa, mop, m, pc).value)
  {
    hide DecodeRaw, Fuse, Ahead, EvenInst;
    RawIsEven(isa, m, pc);
    if mop {
      AheadIsEven(isa, m, pc, 5);
      FusedIsEven(Ahead(isa, m, pc, 5), pc, isa.version);
    }
  }

  lemma EvenSum(pc: u64, d: int)
    requires pc % 2 == 0 && d % 2 == 0
    ensures Plus(pc, d) % 2 == 0 && Plus(d, pc) % 2 == 0
  {
  }

  lemma ExecuteKeepsEven(env: Env, i: Inst, s: State)
    requires EvenInst(i) && s.pc % 2 == 0
    ensures Execute(env, i, s).st.pc % 2 == 0
  {
    hide Value, FusedRegs, Upd, Load, StoreWord, SignExtend, AskSyscalls, Plus, Signed, Wrap;
    EvenSum(s.pc, i.len);
    if i.imm % 2 == 0 {
      EvenSum(s.pc, i.imm);
    }
  }

  /** One step, failing or not, keeps an even pc even. */
  lemma StepKeepsEven(cfg: Config, s: State)
    requires EncodedFactories(cfg.isa) && s.pc % 2 == 0
    ensures Step(cfg, s).st.pc % 2 == 0
  {
    hide Execute, DecodeAny, EvenInst, EncodedInst;
    EncodedAreEven(cfg.isa);
    if DecodeAny(cfg.isa, cfg.mop, s.mem, s.pc).Ok? {
      DecodedIsEven(cfg.isa, cfg.mop, s.mem, s.pc);
      var i := DecodeAny(cfg.isa, cfg.mop, s.mem, s.pc).value;
      ExecuteKeepsEven(cfg.env, i, AddCycles(s, cfg.cost(i)).st);
    }
  }

  /** The fetch at `pc`, and those of the `n - 1` instructions behind it that a fusing decoder may look
      at, give what reading 16 bits, and 16 more if the encoding asks for them, would give. */
  ghost predicate FetchedByRule(isa: Isa, m: Mem, pc: u64, n: nat)
    decreases n
  {
    n > 0 ==>
      && FetchBits(m, pc) == FetchHalves(m, pc)
      && (DecodeRaw(isa, m, pc).Ok? ==> FetchedByRule(isa, m, Plus(pc, DecodeRaw(isa, m, pc).value.len), n - 1))
  }

  lemma {:induction false} AheadByRule(isa: Isa, m: Mem, pc: u64, n: nat)
    requires EvenFactories(isa) && pc % 2 == 0
    ensures FetchedByRule(isa, m, pc, n)
    decreases n
  {
    hide FetchBits, FetchHalves, DecodeRaw, Plus;
    if n > 0 {
      FetchFollowsRule(m, pc);
      if DecodeRaw(isa, m, pc).Ok? {
        RawIsEven(isa, m, pc);
        EvenSum(pc, DecodeRaw(isa, m, pc).value.len);
        AheadByRule(isa, m, Plus(pc, DecodeRaw(isa, m, pc).value.len), n - 1);
      }
    }
  }

  /** From an even pc on, every instruction a run fetches, to execute it or to look ahead of it, is the
      one that the encoding's own rule would give, errors included. */
  lemma {:induction false} RunFetchesByTheRule(cfg: Config, s: State, n: nat)
    requires EncodedFactories(cfg.isa) && s.pc % 2 == 0 && RunN(cfg, s, n).Running?
    ensures var t := RunN(cfg, s, n).st;
            t.pc % 2 == 0 && FetchedByRule(cfg.isa, t.mem, t.pc, 5)
    decreases n
  {
    hide Step, FetchedByRule, EncodedFactories, EvenFactories;
    if n == 0 {
      EncodedAreEven(cfg.isa);
      AheadByRule(cfg.isa, s.mem, s.pc, 5);
    } else {
      StepKeepsEven(cfg, s);
      RunFetchesByTheRule(cfg, Step(cfg, s).st, n - 1);
    }
  }
}
