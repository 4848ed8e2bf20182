/** A fused instruction does what the instructions it replaces do, one after another. */
module FusionProofs {
  import opened Words
  import opened Outcomes
  import opened Pages
  import opened Arith
  import opened Instructions
  import opened Exec
  import opened Fusion

  /** Execute instructions in order; the first error stops it. */
  function ExecSeq(env: Env, w: seq<Inst>, s: State): Outcome {
    if w == [] then Outcome(s, None)
    else
      var o := Execute(env, w[0], s);
      if o.err.Some? then o else ExecSeq(env, w[1..], o.st)
  }

  lemma ExecTwo(env: Env, i: Inst, j: Inst, s: State)
    ensures Execute(env, i, s).err.None? ==> ExecSeq(env, [i, j], s) == Execute(env, j, Execute(env, i, s).st)
  {
    assert [i, j][1..] == [j];
    assert [j][1..] == [];
    var o := Execute(env, i, s);
    if o.err.None? {
      assert ExecSeq(env, [j], o.st) == Execute(env, j, o.st);
    }
  }

  lemma PcSum(pc: u64, a: nat, b: nat)
    ensures Plus(Plus(pc, a), b) == Plus(pc, a + b)
  {
  }

  function Apply(env: Env, i: Inst, r: RegFile): RegFile
    requires Computes(i.op)
  {
    Upd(r, i.rd, Value(env, i, r[i.rs1], r[i.rs2]))
  }

  function RegsAfter(env: Env, w: seq<Inst>, r: RegFile): RegFile
    requires forall i :: i in w ==> Computes(i.op)
  {
    if w == [] then r
    else RegsAfter(env, w[1..], Apply(env, w[0], r))
  }

  /** A run of such instructions changes registers and pc, and nothing else. */
  lemma {:induction false} Straight(env: Env, w: seq<Inst>, s: State)
    requires forall i :: i in w ==> Computes(i.op)
    ensures ExecSeq(env, w, s) == Outcome(s.(regs := RegsAfter(env, w, s.regs), pc := Plus(s.pc, LenSum(w))), None)
  {
    if w != [] {
      var i := w[0];
      var s1 := s.(regs := Apply(env, i, s.regs), pc := Plus(s.pc, i.len));
      assert Execute(env, i, s) == Outcome(s1, None);
      Straight(env, w[1..], s1);
      PcSum(s.pc, i.len, LenSum(w[1..]));
    } else {
      assert Plus(s.pc, 0) == s.pc;
    }
  }

  lemma Two(env: Env, w: seq<Inst>, r: RegFile)
    requires |w| == 2 && Computes(w[0].op) && Computes(w[1].op)
    ensures RegsAfter(env, w, r) == Apply(env, w[1], Apply(env, w[0], r)) && LenSum(w) == Len2(w)
  {
    assert w[1..][1..] == [];
    assert RegsAfter(env, w[1..], Apply(env, w[0], r)) == Apply(env, w[1], Apply(env, w[0], r));
    assert LenSum(w[1..]) == w[1].len;
  }

  lemma Three(env: Env, w: seq<Inst>, r: RegFile)
    requires |w| == 3 && Computes(w[0].op) && Computes(w[1].op) && Computes(w[2].op)
    ensures RegsAfter(env, w, r) == Apply(env, w[2], Apply(env, w[1], Apply(env, w[0], r))) && LenSum(w) == Len3(w)
  {
    Two(env, w[1..], Apply(env, w[0], r));
  }

  function AllFive(env: Env, w: seq<Inst>, r: RegFile): RegFile
    requires |w| == 5 && forall k :: 0 <= k < 5 ==> Computes(w[k].op)
  {
    Apply(env, w[4], Apply(env, w[3], Apply(env, w[2], Apply(env, w[1], Apply(env, w[0], r)))))
  }

  lemma Five(env: Env, w: seq<Inst>, r: RegFile)
    requires |w| == 5 && forall k :: 0 <= k < 5 ==> Computes(w[k].op)
    ensures RegsAfter(env, w, r) == AllFive(env, w, r)
    ensures LenSum(w) == Len5(w)
  {
    var t, r2 := w[1..][1..], Apply(env, w[1], Apply(env, w[0], r));
    assert t == w[2..];
    Three(env, t, r2);
    assert RegsAfter(env, w[1..], Apply(env, w[0], r)) == RegsAfter(env, t, r2);
    assert LenSum(w[1..]) == w[1].len + LenSum(t);
  }

  // ---- Registers, rule by rule ----

  lemma AdcRegs(env: Env, w: seq<Inst>, r: RegFile)
    requires |w| == 5 && RuleAdc(w).Some?
    ensures Adc(r, RuleAdc(w).value) == AllFive(env, w, r)
  {
  }

  lemma PlusCommutes(a: u64, b: u64)
    ensures Plus(a, b) == Plus(b, a)
  {
  }

  lemma Add3aRegs(env: Env, w: seq<Inst>, version: nat, r: RegFile)
    requires |w| == 3 && RuleAdd3(w, version).Some? && RuleAdd3(w, version).value.op.ADD3A?
    ensures Add3a(r, RuleAdd3(w, version).value) == Apply(env, w[2], Apply(env, w[1], Apply(env, w[0], r)))
  {
    hide Plus;
    PlusCommutes(r[w[0].rs1], r[w[0].rs2]);
  }

  lemma Add3bRegs(env: Env, w: seq<Inst>, version: nat, r: RegFile)
    requires |w| == 3 && RuleAdd3(w, version).Some? && RuleAdd3(w, version).value.op.ADD3B?
    ensures Add3b(r, RuleAdd3(w, version).value) == Apply(env, w[2], Apply(env, w[1], Apply(env, w[0], r)))
  {
    hide Plus;
  }

  lemma Add3cRegs(env: Env, w: seq<Inst>, version: nat, r: RegFile)
    requires |w| == 3 && RuleAdd3(w, version).Some? && RuleAdd3(w, version).value.op.ADD3C?
    ensures Add3c(r, RuleAdd3(w, version).value) == Apply(env, w[2], Apply(env, w[1], Apply(env, w[0], r)))
  {
  }

  lemma Add3Regs(env: Env, w: seq<Inst>, version: nat, r: RegFile)
    requires |w| == 3 && RuleAdd3(w, version).Some?
    ensures var i := RuleAdd3(w, version).value;
            && WritesSeveral(i.op)
            && FusedRegs(i, r) == Apply(env, w[2], Apply(env, w[1], Apply(env, w[0], r)))
  {
    hide Add3a, Add3b, Add3c, Apply;
    var i := RuleAdd3(w, version).value;
    if i.op.ADD3A? {
      Add3aRegs(env, w, version, r);
    } else if i.op.ADD3B? {
      Add3bRegs(env, w, version, r);
    } else {
      Add3cRegs(env, w, version, r);
    }
  }

  lemma AdcsRegs(env: Env, w: seq<Inst>, version: nat, r: RegFile)
    requires |w| == 2 && RuleAdcs(w, version).Some?
    ensures Adcs(r, RuleAdcs(w, version).value) == Apply(env, w[1], Apply(env, w[0], r))
  {
  }

  lemma SbbRegs(env: Env, w: seq<Inst>, r: RegFile)
    requires |w| == 5 && RuleSbb(w).Some? && !LooseSbb(w)
    ensures Sbb(r, RuleSbb(w).value) == AllFive(env, w, r)
  {
  }

  lemma SbbsRegs(env: Env, w: seq<Inst>, version: nat, r: RegFile)
    requires |w| == 2 && RuleSbbs(w, version).Some?
    ensures Sbbs(r, RuleSbbs(w, version).value) == Apply(env, w[1], Apply(env, w[0], r))
  {
  }

  // ---- The pairs that use or change pc ----

  lemma ImmSum(a: i32, b: i32)
    ensures Plus(Wrap(a), b) == Wrap(a + b)
  {
  }

  lemma ImmPcSum(pc: u64, a: i32, b: i32)
    ensures Plus(Plus(pc, a), b) == Plus(pc, a + b)
  {
  }

  lemma Mod32Of64(y: int)
    ensures (y + 0x1_0000_0000_0000_0000) % 0x1_0000_0000 == y % 0x1_0000_0000
  {
    var q, r := y / 0x1_0000_0000, y % 0x1_0000_0000;
    assert y + 0x1_0000_0000_0000_0000 == 0x1_0000_0000 * (q + 0x1_0000_0000) + r;
  }

  lemma SmallWraps(x: int)
    requires -0x1_0000_0000 <= x < 0x1_0000_0000
    ensures Wrap(x) == if x < 0 then x + 0x1_0000_0000_0000_0000 else x
    ensures WrapI32(x) == if x < -0x8000_0000 then x + 0x1_0000_0000
                          else if x < 0x8000_0000 then x else x - 0x1_0000_0000
  {
  }

  /** LUI+ADDIW: sign extension of the 32-bit sum. */
  lemma LuiAddiw(a: i32, b: i32)
    ensures SignExtend(Plus(Wrap(a), b), 4) == Wrap(WrapI32(a + b))
  {
    ImmSum(a, b);
    var x: int := a + b;
    SmallWraps(x);
    Mod32Of64(x + 0x8000_0000);
  }

  lemma FarJumpTargets(a: i32, b: i32)
    ensures ClearLowBit(Wrap(WrapI32(a + b))) == ClearLowBit(Wrap(a + b)) <==> FitsI32(a + b)
  {
    hide Wrap, WrapI32;
    SmallWraps(a + b);
    SmallWraps(WrapI32(a + b));
  }

  /** Where LUI+JALR goes. */
  lemma LuiJalr(env: Env, w: seq<Inst>, version: nat, s: State)
    requires version >= 2 && |w| == 2 && w[1].op.JALR? && RuleLui(w, version).Some?
    ensures ExecSeq(env, w, s)
         == Jump(s, Upd(s.regs, RA, Plus(s.pc, Len2(w))), ClearLowBit(Wrap(w[0].imm + w[1].imm)))
  {
    var a, b := w[0].imm, w[1].imm;
    assert w == [w[0], w[1]];
    ExecTwo(env, w[0], w[1], s);
    var s1 := Execute(env, w[0], s).st;
    assert s1.regs[RA] == Wrap(a) && s1.pc == Plus(s.pc, w[0].len);
    ImmSum(a, b);
    PcSum(s.pc, w[0].len, w[1].len);
    assert Upd(s1.regs, RA, Plus(s1.pc, w[1].len)) == Upd(s.regs, RA, Plus(s.pc, Len2(w)));
  }

  /** LUI+JALR means its two instructions exactly when the immediates do not overflow 32 bits:
      otherwise it jumps 2^32 away, on every state. */
  lemma FarJumpAbsExact(env: Env, w: seq<Inst>, version: nat, s: State)
    requires version >= 2 && |w| == 2 && w[1].op.JALR? && RuleLui(w, version).Some?
    ensures Execute(env, RuleLui(w, version).value, s) == ExecSeq(env, w, s) <==> !WrappingFarJump(w, version)
    ensures ExecSeq(env, w, s).err.None? && ExecSeq(env, w, s).st.running == s.running
  {
    hide ExecSeq, ClearLowBit;
    LuiJalr(env, w, version, s);
    FarJumpTargets(w[0].imm, w[1].imm);
    var i := RuleLui(w, version).value;
    assert Execute(env, i, s) == FarJumpAbs(i, s);
  }

  lemma FarJumpRelMeans(env: Env, w: seq<Inst>, version: nat, s: State)
    requires version >= 2 && |w| == 2 && w[1].op.JALR? && RuleAuipc(w, s.pc, version).Some?
    ensures Execute(env, RuleAuipc(w, s.pc, version).value, s) == ExecSeq(env, w, s)
    ensures ExecSeq(env, w, s).err.None? && ExecSeq(env, w, s).st.running == s.running
  {
    hide Plus, ClearLowBit, ExecSeq;
    var a: int, b: int := w[0].imm, w[1].imm;
    assert w == [w[0], w[1]];
    ExecTwo(env, w[0], w[1], s);
    var s1 := Execute(env, w[0], s).st;
    assert s1.regs[RA] == Plus(s.pc, a) && s1.pc == Plus(s.pc, w[0].len);
    ImmPcSum(s.pc, a, b);
    PcSum(s.pc, w[0].len, w[1].len);
    assert Upd(s1.regs, RA, Plus(s1.pc, w[1].len)) == Upd(s.regs, RA, Plus(s.pc, w[0].len + w[1].len));
  }

  lemma UpdTwice(regs: RegFile, rd: Reg, u: u64, v: u64)
    ensures Upd(Upd(regs, rd, u), rd, v) == Upd(regs, rd, v)
  {
  }

  lemma PlusIsWrap(pc: u64, x: int)
    ensures Plus(pc, x) == Wrap(x + pc)
  {
  }

  lemma LoadImmMeans(env: Env, w: seq<Inst>, version: nat, s: State)
    requires version >= 2 && |w| == 2 && w[1].op.ADDI? && RuleAuipc(w, s.pc, version).Some?
    ensures Execute(env, RuleAuipc(w, s.pc, version).value, s) == ExecSeq(env, w, s)
    ensures ExecSeq(env, w, s).err.None? && ExecSeq(env, w, s).st.running == s.running
  {
    hide ExecSeq, Plus, Wrap;
    var a: int, b: int, rd := w[0].imm, w[1].imm, w[0].rd;
    assert w == [w[0], w[1]];
    ExecTwo(env, w[0], w[1], s);
    ImmPcSum(s.pc, a, b);
    PlusIsWrap(s.pc, a + b);
    PcSum(s.pc, w[0].len, w[1].len);
    UpdTwice(s.regs, rd, Plus(s.pc, a), Plus(s.pc, a + b));
  }

  lemma LuiAddiwMeans(env: Env, w: seq<Inst>, version: nat, s: State)
    requires |w| == 2 && w[1].op.ADDIW? && RuleLui(w, version).Some?
    ensures Execute(env, RuleLui(w, version).value, s) == ExecSeq(env, w, s)
    ensures ExecSeq(env, w, s).err.None? && ExecSeq(env, w, s).st.running == s.running
  {
    Straight(env, w, s);
    Two(env, w, s.regs);
    var rd := w[0].rd;
    LuiAddiw(w[0].imm, w[1].imm);
    assert Upd(Upd(s.regs, rd, Wrap(w[0].imm)), rd, Wrap(WrapI32(w[0].imm + w[1].imm)))
        == Upd(s.regs, rd, Wrap(WrapI32(w[0].imm + w[1].imm)));
  }

  // ---- Every rule ----

  /** What is claimed of a fused instruction `i` that replaces `p`. */
  ghost predicate Means(env: Env, i: Inst, p: seq<Inst>, s: State) {
    && Execute(env, i, s) == ExecSeq(env, p, s)
    && ExecSeq(env, p, s).err.None? && ExecSeq(env, p, s).st.running == s.running
  }

  /** For a run of computing instructions it is enough that the registers agree. */
  lemma MeansByRegs(env: Env, i: Inst, p: seq<Inst>, s: State, regs: RegFile)
    requires (forall j :: j in p ==> Computes(j.op)) && i.len == LenSum(p)
    requires Execute(env, i, s) == Writes(i, s, regs) && regs == RegsAfter(env, p, s.regs)
    ensures Means(env, i, p, s)
  {
    Straight(env, p, s);
  }

  lemma AdcMeans(env: Env, p: seq<Inst>, s: State)
    requires |p| == 5 && RuleAdc(p).Some?
    ensures Means(env, RuleAdc(p).value, p, s)
  {
    Five(env, p, s.regs);
    AdcRegs(env, p, s.regs);
    MeansByRegs(env, RuleAdc(p).value, p, s, Adc(s.regs, RuleAdc(p).value));
  }

  lemma Add3Shape(p: seq<Inst>, version: nat)
    requires |p| == 3 && RuleAdd3(p, version).Some?
    ensures Computes(p[0].op) && Computes(p[1].op) && Computes(p[2].op)
    ensures WritesSeveral(RuleAdd3(p, version).value.op) && RuleAdd3(p, version).value.len == Len3(p)
  {
  }

  lemma Add3Means(env: Env, p: seq<Inst>, version: nat, s: State)
    requires |p| == 3 && RuleAdd3(p, version).Some?
    ensures Means(env, RuleAdd3(p, version).value, p, s)
  {
    hide FusedRegs, Value, RuleAdd3, Execute, Apply, Means;
    Add3Shape(p, version);
    Three(env, p, s.regs);
    Add3Regs(env, p, version, s.regs);
    ExecuteFused(env, RuleAdd3(p, version).value, s);
    MeansByRegs(env, RuleAdd3(p, version).value, p, s, RegsAfter(env, p, s.regs));
  }

  lemma AdcsMeans(env: Env, p: seq<Inst>, version: nat, s: State)
    requires |p| == 2 && RuleAdcs(p, version).Some?
    ensures Means(env, RuleAdcs(p, version).value, p, s)
  {
    Two(env, p, s.regs);
    AdcsRegs(env, p, version, s.regs);
    MeansByRegs(env, RuleAdcs(p, version).value, p, s, RegsAfter(env, p, s.regs));
  }

  lemma SbbMeans(env: Env, p: seq<Inst>, s: State)
    requires |p| == 5 && RuleSbb(p).Some? && !LooseSbb(p)
    ensures Means(env, RuleSbb(p).value, p, s)
  {
    Five(env, p, s.regs);
    SbbRegs(env, p, s.regs);
    MeansByRegs(env, RuleSbb(p).value, p, s, RegsAfter(env, p, s.regs));
  }

  lemma SbbsMeans(env: Env, p: seq<Inst>, version: nat, s: State)
    requires |p| == 2 && RuleSbbs(p, version).Some?
    ensures Means(env, RuleSbbs(p, version).value, p, s)
  {
    Two(env, p, s.regs);
    SbbsRegs(env, p, version, s.regs);
    MeansByRegs(env, RuleSbbs(p, version).value, p, s, RegsAfter(env, p, s.regs));
  }

  /** MULH*+MUL, DIV+REM, DIVU+REMU: the second may overwrite a source, the first may not. */
  lemma WideRegs(env: Env, p: seq<Inst>, r: RegFile)
    requires |p| == 2 && RuleWide(p).Some?
    ensures FusedRegs(RuleWide(p).value, r) == Apply(env, p[1], Apply(env, p[0], r))
  {
    hide Mul, MulHighSigned, MulHighUnsigned, MulHighSignedUnsigned, DivSigned, DivUnsigned, RemSigned, RemUnsigned;
  }

  lemma WideShape(p: seq<Inst>)
    requires |p| == 2 && RuleWide(p).Some?
    ensures Computes(p[0].op) && Computes(p[1].op)
    ensures WritesSeveral(RuleWide(p).value.op) && RuleWide(p).value.len == Len2(p)
  {
  }

  lemma ExecuteFused(env: Env, i: Inst, s: State)
    requires WritesSeveral(i.op)
    ensures Execute(env, i, s) == Writes(i, s, FusedRegs(i, s.regs))
  {
    hide FusedRegs, Value;
  }

  lemma WideMeans(env: Env, p: seq<Inst>, s: State)
    requires |p| == 2 && RuleWide(p).Some?
    ensures Means(env, RuleWide(p).value, p, s)
  {
    hide FusedRegs, Value, RuleWide, Execute, Apply, Means;
    WideShape(p);
    Two(env, p, s.regs);
    WideRegs(env, p, s.regs);
    ExecuteFused(env, RuleWide(p).value, s);
    MeansByRegs(env, RuleWide(p).value, p, s, RegsAfter(env, p, s.regs));
  }

  /** One step of a fused instruction is the steps of its parts, for every register assignment. */
  lemma FusedStep(env: Env, w: seq<Inst>, version: nat, s: State)
    requires version >= 2 && |w| > 0 && Fuse(w, s.pc, version).parts > 1
    requires !LooseSbb(w) && !WrappingFarJump(w, version)
    ensures Means(env, Fuse(w, s.pc, version).inst, w[..Fuse(w, s.pc, version).parts], s)
  {
    hide Execute, ExecSeq, LenSum, Upd;
    if w[0].op.ADD? {
      if RuleAdc(w).Some? { AdcMeans(env, w[..5], s); }
      else if RuleAdd3(w, version).Some? { Add3Means(env, w[..3], version, s); }
      else { AdcsMeans(env, w[..2], version, s); }
    } else if w[0].op.SUB? {
      if RuleSbb(w).Some? { SbbMeans(env, w[..5], s); } else { SbbsMeans(env, w[..2], version, s); }
    } else if w[0].op.LUI? {
      if w[1].op.JALR? { FarJumpAbsExact(env, w[..2], version, s); } else { LuiAddiwMeans(env, w[..2], version, s); }
    } else if w[0].op.AUIPC? {
      if w[1].op.JALR? { FarJumpRelMeans(env, w[..2], version, s); } else { LoadImmMeans(env, w[..2], version, s); }
    } else if RuleWide(w).Some? {
      WideMeans(env, w[..2], s);
    }
  }

  // ---- The rule that matches too much ----

  /** An SBB match leaves the registers of its five instructions, on every register file, exactly when
      its first SLTU compares with the subtrahend. */
  lemma SbbRegsExact(env: Env, w: seq<Inst>)
    requires |w| == 5 && RuleSbb(w).Some?
    ensures (forall r: RegFile :: Sbb(r, RuleSbb(w).value) == AllFive(env, w, r)) <==> w[1].rs2 == w[0].rs2
  {
    hide Sbb, AllFive;
    if w[1].rs2 == w[0].rs2 {
      forall r: RegFile
        ensures Sbb(r, RuleSbb(w).value) == AllFive(env, w, r)
      {
        SbbRegs(env, w, r);
      }
    } else {
      LooseSbbDiffers(env, w);
    }
  }

  /** Execution sees exactly the difference that the registers show. */
  lemma SbbOnState(env: Env, w: seq<Inst>, s: State)
    requires |w| == 5 && RuleSbb(w).Some?
    ensures Execute(env, RuleSbb(w).value, s) == ExecSeq(env, w, s) <==>
            Sbb(s.regs, RuleSbb(w).value) == AllFive(env, w, s.regs)
  {
    hide Sbb, AllFive, ExecSeq, RegsAfter, Execute;
    Five(env, w, s.regs);
    Straight(env, w, s);
    ExecuteFused(env, RuleSbb(w).value, s);
  }

  /** An SBB match means its five instructions, on every state, exactly when its first SLTU compares
      with the subtrahend. */
  lemma SbbExact(env: Env, w: seq<Inst>)
    requires |w| == 5 && RuleSbb(w).Some?
    ensures (forall s: State :: Execute(env, RuleSbb(w).value, s) == ExecSeq(env, w, s)) <==> w[1].rs2 == w[0].rs2
  {
    hide Sbb, AllFive, ExecSeq, Execute, RuleSbb;
    if w[1].rs2 == w[0].rs2 {
      SbbRegsExact(env, w);
      forall s: State
        ensures Execute(env, RuleSbb(w).value, s) == ExecSeq(env, w, s)
      {
        SbbOnState(env, w, s);
      }
    } else {
      SbbSources(w);
      var s := Idle(OneAt(w[0].rs2));
      LooseSbbDiffers(env, w);
      SbbOnState(env, w, s);
    }
  }

  lemma SbbSources(w: seq<Inst>)
    requires |w| == 5 && RuleSbb(w).Some?
    ensures w[0].rs2 != 0
  {
  }

  /** A machine at address 0 with these registers and no memory. */
  function Idle(r: RegFile): State {
    State(r, 0, MemBase([], [], 0), 0, 0, true, 0)
  }

  /** All registers zero but `b`. */
  function OneAt(b: Reg): (r: RegFile)
    requires b != 0
    ensures forall k: Reg :: r[k] == if k == b then 1 else 0
  {
    seq(32, k => if k == b then 1 else 0)
  }

  /** 0 - 1 borrows, but the SLTU compares 0 with a register that holds 0. */
  lemma LooseSbbDiffers(env: Env, w: seq<Inst>)
    requires |w| == 5 && RuleSbb(w).Some? && w[1].rs2 != w[0].rs2
    ensures Sbb(OneAt(w[0].rs2), RuleSbb(w).value) != AllFive(env, w, OneAt(w[0].rs2))
  {
    hide Sbb, AllFive;
    FusedSbbOnOne(RuleSbb(w).value, OneAt(w[0].rs2));
    RawSbbOnOne(env, w, OneAt(w[0].rs2));
  }

  lemma FusedSbbOnOne(i: Inst, r: RegFile)
    requires i.rd != 0 && i.rs1 != 0 && i.rs2 != 0 && i.rs3 != 0
    requires i.rs3 != i.rd && i.rs3 != i.rs1 && i.rs3 != i.rs2 && i.rd != i.rs1
    requires r[i.rd] == 0 && r[i.rs1] == 1
    ensures Sbb(r, i)[i.rs3] == 1
  {
    hide Or64;
  }

  lemma RawSbbOnOne(env: Env, w: seq<Inst>, r: RegFile)
    requires |w| == 5 && RuleSbb(w).Some? && w[1].rs2 != w[0].rs2
    requires r[w[1].rs1] == 0 && r[w[1].rs2] == 0
    ensures AllFive(env, w, r)[w[1].rd] == 0
  {
    hide Or64, Minus;
    var d := w[1].rd;
    var r2 := Apply(env, w[1], Apply(env, w[0], r));
    assert r2[d] == 0;
    assert Apply(env, w[2], r2)[d] == 0;
    assert Apply(env, w[3], Apply(env, w[2], r2))[d] == 0;
  }

  // ---- Programs that are matched too much ----

  /** sub x6, x5, x6; sltu x7, x5, x0; sub x5, x6, x8; sltu x8, x6, x5; or x6, x8, x7 */
  function LooseWindow(): seq<Inst> {
    [RType(SUB, 6, 5, 6, 4), RType(SLTU, 7, 5, 0, 4), RType(SUB, 5, 6, 8, 4), RType(SLTU, 8, 6, 5, 4),
     RType(OR, 6, 8, 7, 4)]
  }

  /** The decoder fuses this window, whose borrow is never taken from x6, and from x6 == 1 the fused
      instruction and the five it replaces part ways. */
  lemma LooseSbbExample(env: Env, pc: u64, version: nat)
    ensures LooseSbb(LooseWindow())
    ensures Fuse(LooseWindow(), pc, version) == Fused(R4Type(SBB, 5, 6, 8, 7, 20), 5)
    ensures var s := Idle(OneAt(6));
            Execute(env, Fuse(LooseWindow(), pc, version).inst, s) != ExecSeq(env, LooseWindow(), s)
  {
    hide Sbb, AllFive, ExecSeq, Execute;
    LooseSbbDiffers(env, LooseWindow());
    SbbOnState(env, LooseWindow(), Idle(OneAt(6)));
  }

  /** lui x1, -0x80000000; jalr x1, -2(x1) */
  function WrappingWindow(): seq<Inst> {
    [UType(LUI, 1, -0x8000_0000, 4), Inst(JALR, 1, 1, 0, 0, 0, -2, 4)]
  }

  lemma TwoTargets()
    ensures WrapI32(-0x8000_0000 + -2) == 0x7FFF_FFFE && ClearLowBit(Wrap(0x7FFF_FFFE)) == 0x7FFF_FFFE
    ensures ClearLowBit(Wrap(-0x8000_0000 + -2)) == 0xFFFF_FFFF_7FFF_FFFE
  {
  }

  /** The decoder fuses this pair, and from every state the fused jump goes elsewhere. */
  lemma WrappingJumpExample(env: Env, version: nat, s: State)
    requires version >= 2
    ensures WrappingFarJump(WrappingWindow(), version)
    ensures Fuse(WrappingWindow(), s.pc, version) == Fused(UType(FAR_JUMP_ABS, RA, 0x7FFF_FFFE, 8), 2)
    ensures Execute(env, Fuse(WrappingWindow(), s.pc, version).inst, s).st.pc == 0x7FFF_FFFE
    ensures ExecSeq(env, WrappingWindow(), s).st.pc == 0xFFFF_FFFF_7FFF_FFFE
  {
    hide ExecSeq, Execute, ClearLowBit, Wrap, WrapI32, Upd;
    TwoTargets();
    var i := UType(FAR_JUMP_ABS, RA, 0x7FFF_FFFE, 8);
    assert RuleLui(WrappingWindow(), version) == Some(i);
    ExecuteFarJump(env, i, s);
    LuiJalr(env, WrappingWindow(), version, s);
  }

  lemma ExecuteFarJump(env: Env, i: Inst, s: State)
    requires i.op.FAR_JUMP_ABS?
    ensures Execute(env, i, s) == FarJumpAbs(i, s)
  {
    hide FarJumpAbs;
  }
}
