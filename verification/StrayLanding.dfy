/** Why the converse whole-run theorem asks where an overflowing fused jump can land: in a memory of
    2^31 bytes a program halts with fusion and fails without it. */
module StrayLanding {
  import opened Words
  import opened Outcomes
  import opened Pages
  import opened Instructions
  import opened Exec
  import opened Decode
  import opened Fusion
  import opened FusionProofs
  import opened Run
  import opened FusedRun
  import opened ReflectedRun

  const LAST: u64 := 0x7FFF_FFFE

  /** Bits 3 are the LUI and bits 7 the JALR of the overflowing pair; bits 0 are an ECALL of two bytes. */
  function Factory(bits: nat, version: nat): Option<Inst> {
    if bits == 3 then Some(WrappingWindow()[0])
    else if bits == 7 then Some(WrappingWindow()[1])
    else if bits == 0 then Some(RType(ECALL, 0, 0, 0, 2))
    else None
  }

  function Program(i: int): byte {
    if i == 0 then 3 else if i == 4 then 7 else 0
  }

  /** 2^31 bytes, all of them freezed code. */
  function Code(): (m: Mem)
    ensures |m.data| == 0x8000_0000 && |m.flags| == 0x8_0000
    ensures forall i :: 0 <= i < |m.data| ==> m.data[i] == Program(i)
    ensures forall p :: 0 <= p < |m.flags| ==> m.flags[p].executable
  {
    MemBase(seq(0x8000_0000, i => Program(i)), seq(0x8_0000, _ => PageFlags(true, true, true)), 0)
  }

  function Setup(): Config {
    Config(Isa([Factory], 2), false, Env((i, a, b) => 0, (i, a, b) => 0, []), ConstantCycles)
  }

  /** At address 0, with 93 in a7 for the ECALL to exit on. */
  function Start(): (s: State)
    ensures s.regs[A7] == 93
  {
    State(seq(32, i => if i == 17 then 93 else 0), 0, Code(), 0, 100, true, 0)
  }

  lemma Executable(addr: u64, n: nat)
    requires 0 < n <= 8 && addr + n <= 0x8000_0000
    ensures ExecuteLoad(Code(), addr, n) == Ok(LeWord(Code().data[addr..addr + n]))
  {
    hide LeWord, Code;
  }

  lemma FirstByteOnly(s: seq<byte>)
    requires |s| == 4 || |s| == 2
    requires forall k :: 1 <= k < |s| ==> s[k] == 0
    ensures LeWord(s) == s[0]
  {
    if |s| == 4 {
      assert s == [s[0], 0, 0, 0];
      assert s[1..] == [0, 0, 0];
      assert s[1..][1..] == [0, 0] && [0, 0][1..] == [0];
      assert FromLe([0]) == 0 && FromLe([0, 0]) == 0;
      assert FromLe(s[1..]) == 0;
    } else {
      assert s[1..] == [0];
      assert FromLe([0]) == 0;
    }
  }

  lemma DecodesAt(pc: u64)
    requires pc == 0 || pc == 4
    ensures DecodeRaw(Setup().isa, Code(), pc) == Ok(WrappingWindow()[if pc == 0 then 0 else 1])
  {
    hide ExecuteLoad, Code;
    Executable(pc, 4);
    FirstByteOnly(Code().data[pc..pc + 4]);
    FactoryAnswers(Program(pc));
  }

  lemma FactoryAnswers(bits: nat)
    ensures FirstMatch(Setup().isa, 0, bits) == Factory(bits, 2)
  {
  }

  lemma DecodesLast()
    ensures DecodeRaw(Setup().isa, Code(), LAST) == Ok(RType(ECALL, 0, 0, 0, 2))
  {
    hide ExecuteLoad, Code;
    Executable(LAST, 2);
    FirstByteOnly(Code().data[LAST..LAST + 2]);
    FactoryAnswers(0);
  }

  /** The pair is what the fusing decoder sees at address 0. */
  lemma FusedAtZero()
    ensures DecodeMop(Setup().isa, Code(), 0) == Ok(UType(FAR_JUMP_ABS, RA, 0x7FFF_FFFE, 8))
    ensures DecodeMop(Setup().isa, Code(), LAST) == Ok(RType(ECALL, 0, 0, 0, 2))
  {
    hide DecodeRaw, Code, Setup;
    var w := Ahead(Setup().isa, Code(), 0, 5);
    DecodesAt(0);
    DecodesAt(4);
    assert w == [WrappingWindow()[0]] + Ahead(Setup().isa, Code(), 4, 4);
    assert w[1] == WrappingWindow()[1];
    PairAhead(w);
    DecodesLast();
    assert Setup().isa.version == 2 by {
      IsaVersion();
    }
  }

  lemma IsaVersion()
    ensures Setup().isa.version == 2
  {
  }

  lemma PairAhead(w: seq<Inst>)
    requires |w| >= 2 && w[0] == WrappingWindow()[0] && w[1] == WrappingWindow()[1]
    ensures Fuse(w, 0, 2).inst == UType(FAR_JUMP_ABS, RA, 0x7FFF_FFFE, 8)
  {
    hide WrapI32;
    TwoTargets();
  }

  lemma FusedJumps(t: State)
    requires t == Step(Mop(Setup()), Start()).st
    ensures Step(Mop(Setup()), Start()).err.None?
    ensures t.pc == LAST && t.mem == Code() && t.running && t.regs[A7] == 93 && t.cycles < t.maxCycles
  {
    hide DecodeMop, Code, ClearLowBit, Wrap;
    FusedAtZero();
    TwoTargets();
  }

  lemma FusedExits(t: State)
    requires t.pc == LAST && t.mem == Code() && t.running && t.regs[A7] == 93 && t.cycles < t.maxCycles
    ensures Step(Mop(Setup()), t).err.None? && !Step(Mop(Setup()), t).st.running
  {
    hide DecodeMop, Code;
    FusedAtZero();
  }

  lemma FusedHalts()
    ensures RunN(Mop(Setup()), Start(), 2).Halted?
  {
    hide Step, Code;
    var t := Step(Mop(Setup()), Start()).st;
    FusedJumps(t);
    FusedExits(t);
    assert RunN(Mop(Setup()), t, 1) == RunN(Mop(Setup()), Step(Mop(Setup()), t).st, 0);
  }

  lemma SmallSum()
    ensures Plus(0, 4) == 4
  {
  }

  lemma RawLui(t: State)
    requires t == Step(Raw(Setup()), Start()).st
    ensures Step(Raw(Setup()), Start()).err.None?
    ensures t.pc == 4 && t.mem == Code() && t.running && t.regs[1] == Wrap(-0x8000_0000)
  {
    hide DecodeRaw, Code, Wrap;
    DecodesAt(0);
    SmallSum();
  }

  lemma RawJalr(t: State)
    requires t.pc == 4 && t.mem == Code() && t.running && t.regs[1] == Wrap(-0x8000_0000)
    requires t.cycles < t.maxCycles
    ensures Step(Raw(Setup()), t).err.None?
    ensures Step(Raw(Setup()), t).st.pc == 0xFFFF_FFFF_7FFF_FFFE
    ensures Step(Raw(Setup()), t).st.mem == Code() && Step(Raw(Setup()), t).st.running
  {
    hide DecodeRaw, Code, Wrap, ClearLowBit;
    DecodesAt(4);
    TwoTargets();
    ImmSum(-0x8000_0000, -2);
  }

  /** Where the raw run ends. */
  predicate LostJump(p: Progress) {
    p.Stopped? && p.error == MemOutOfBound(0xFFFF_FFFF_7FFF_FFFE, Memory)
  }

  lemma RawFails()
    ensures LostJump(RunN(Raw(Setup()), Start(), 3))
  {
    hide Step, Code;
    var t := Step(Raw(Setup()), Start()).st;
    RawLui(t);
    assert t.cycles < t.maxCycles by {
      OneCycle();
    }
    RawJalr(t);
    var u := Step(Raw(Setup()), t).st;
    BeyondMemory(u);
    assert LostJump(RunN(Raw(Setup()), u, 1));
    assert RunN(Raw(Setup()), t, 2) == RunN(Raw(Setup()), u, 1);
  }

  lemma OneCycle()
    ensures Step(Raw(Setup()), Start()).st.cycles < Step(Raw(Setup()), Start()).st.maxCycles
  {
    hide DecodeRaw, Code, Wrap;
    DecodesAt(0);
  }

  lemma BeyondMemory(u: State)
    requires u.pc == 0xFFFF_FFFF_7FFF_FFFE && u.mem == Code()
    ensures Step(Raw(Setup()), u).err == Some(MemOutOfBound(0xFFFF_FFFF_7FFF_FFFE, Memory))
  {
    hide Code;
  }

  lemma OtherHypotheses()
    ensures Hypotheses(Setup()) && NoLooseSbb(Setup().isa, Start().mem)
  {
    hide Code, FusionPays;
    ConstantPays();
    forall pc: u64
      ensures !LooseSbb(Ahead(Setup().isa, Start().mem, pc, 5))
    {
      if DecodeRaw(Setup().isa, Start().mem, pc).Ok? {
        hide FetchBits;
        FactoryAnswers(FetchBits(Start().mem, pc).value);
      }
    }
  }

  /** Every other hypothesis of the converse holds, and its conclusion does not: the fused program exits,
      the raw one jumps out of memory. */
  lemma StrayProgramHalts()
    ensures Hypotheses(Setup()) && NoLooseSbb(Setup().isa, Start().mem) && Leads(Start(), Start())
    ensures RunN(Mop(Setup()), Start(), 2).Halted?
    ensures !Follows(Setup(), Start(), RunN(Mop(Setup()), Start(), 2))
  {
    hide RunN, Hypotheses, NoLooseSbb, Setup, Start;
    OtherHypotheses();
    FusedHalts();
    RawFails();
    forall n: nat | !RunN(Raw(Setup()), Start(), n).Running?
      ensures LostJump(RunN(Raw(Setup()), Start(), n))
    {
      EndIsUnique(Raw(Setup()), Start(), n, 3);
    }
  }
}
