/** What executing one instruction means, opcode by opcode, for registers as numbers and memory as
    bytes. */
module InstructionLaws {
  import opened Words
  import opened Outcomes
  import opened Pages
  import opened Arith
  import opened Instructions
  import opened Exec
  import opened Atomics
  import PageLemmas

  // ---- How a step ends ----

  /** pc has gone on to the next instruction, `rd` holds `v` unless it is x0, and nothing else changed. */
  ghost predicate Sets(i: Inst, s: State, o: Outcome, v: u64) {
    && o == Outcome(s.(regs := o.st.regs, pc := Wrap(s.pc + i.len)), None)
    && OnlyRegister(s.regs, o.st.regs, i.rd, v)
  }

  /** pc is `target`, `link` holds the address of the next instruction unless it is x0. */
  ghost predicate Links(i: Inst, s: State, o: Outcome, link: Reg, target: u64) {
    && o == Outcome(s.(regs := o.st.regs, pc := target), None)
    && OnlyRegister(s.regs, o.st.regs, link, Wrap(s.pc + i.len))
  }

  /** Two results; where both go to one register the second stays. */
  ghost predicate SetsTwo(i: Inst, s: State, o: Outcome, v: u64, w: u64) {
    && o == Outcome(s.(regs := o.st.regs, pc := Wrap(s.pc + i.len)), None)
    && forall k: Reg ::
         o.st.regs[k] == if k == 0 then 0 else if k == i.rs3 then w else if k == i.rd then v else s.regs[k]
  }

  /** The instruction failed: pc has gone on all the same, and nothing else changed. */
  ghost predicate Fails(i: Inst, s: State, o: Outcome) {
    o.err.Some? && o.st == s.(pc := Wrap(s.pc + i.len))
  }

  // ---- Branches and jumps ----

  predicate IsBranch(op: Op) {
    op.BEQ? || op.BNE? || op.BLT? || op.BGE? || op.BLTU? || op.BGEU?
  }

  /** The comparison that decides a branch, on register values as numbers. */
  predicate Taken(op: Op, a: u64, b: u64) {
    || (op == BEQ && a == b)
    || (op == BNE && a != b)
    || (op == BLT && Signed(a) < Signed(b))
    || (op == BGE && Signed(b) <= Signed(a))
    || (op == BLTU && a < b)
    || (op == BGEU && b <= a)
  }

  lemma BranchLaw(env: Env, i: Inst, s: State)
    requires IsBranch(i.op)
    ensures var target := if Taken(i.op, s.regs[i.rs1], s.regs[i.rs2]) then s.pc + i.imm else s.pc + i.len;
            Execute(env, i, s) == Outcome(s.(pc := Wrap(target)), None)
  {
    hide Signed, Wrap;
  }

  /** JALR and the far jumps clear the lowest bit of their target. */
  lemma JumpLaw(env: Env, i: Inst, s: State)
    requires i.op.JAL? || i.op.JALR? || i.op.FAR_JUMP_REL? || i.op.FAR_JUMP_ABS?
    ensures var o := Execute(env, i, s);
            match i.op
            case JAL => Links(i, s, o, i.rd, Wrap(s.pc + i.imm))
            case JALR => Links(i, s, o, i.rd, EvenBelow(Wrap(s.regs[i.rs1] + i.imm)))
            case FAR_JUMP_REL => Links(i, s, o, RA, EvenBelow(Wrap(s.pc + i.imm)))
            case _ => Links(i, s, o, RA, EvenBelow(Wrap(i.imm)))
  {
    hide Wrap;
  }

  /** The even one of `x` and the number before it. */
  function EvenBelow(x: u64): u64 {
    x / 2 * 2
  }

  // ---- Loads and stores ----

  /** Bytes and sign of a load. */
  function LoadShape(op: Op): Option<(nat, bool)> {
    match op
    case LB => Some((1, true)) case LH => Some((2, true)) case LW => Some((4, true)) case LD => Some((8, true))
    case LBU => Some((1, false)) case LHU => Some((2, false)) case LWU => Some((4, false))
    case _ => None
  }

  /** The number that little-endian bytes stand for, from the most significant one down. */
  function Number(s: seq<byte>): nat {
    if s == [] then 0 else s[|s| - 1] * Pow256(|s| - 1) + Number(s[..|s| - 1])
  }

  lemma {:induction false} NumberIsWord(s: seq<byte>)
    ensures Number(s) == FromLe(s)
  {
    if s != [] {
      var t, b := s[..|s| - 1], s[|s| - 1];
      NumberIsWord(t);
      PageLemmas.FromLeSnoc(t, b);
      assert s == t + [b];
    }
  }

  /** An `n`-byte number read as two's complement. */
  function TwosComplement(v: nat, n: nat): int {
    if 2 * v < Pow256(n) then v else v - Pow256(n)
  }

  lemma Extends(v: u64, n: nat)
    requires n in {1, 2, 4, 8} && v < Pow256(n)
    ensures SignExtend(v, n) == Wrap(TwosComplement(v, n))
  {
  }

  /** An access outside memory reports its start if that is outside, and its end otherwise. */
  function OutOfBounds(m: Mem, at: u64, n: nat): Error {
    MemOutOfBound(if at >= |m.data| then at else Wrap(at + n), Memory)
  }

  /** A load reaches its address, in bounds or not at all, and extends the number its bytes stand for. */
  lemma LoadLaw(env: Env, i: Inst, s: State)
    requires LoadShape(i.op).Some?
    ensures var (n, signed) := LoadShape(i.op).value;
            var o, at := Execute(env, i, s), Wrap(s.regs[i.rs1] + i.imm);
            && (o.err.None? <==> at + n <= |s.mem.data|)
            && (o.err.None? ==>
                  var v := Number(s.mem.data[at..at + n]);
                  Sets(i, s, o, Wrap(if signed then TwosComplement(v, n) else v)))
            && (o.err.Some? ==> Fails(i, s, o) && o.err == Some(OutOfBounds(s.mem, at, n)))
  {
    hide SignExtend, FromLe, Number, Wrap, TwosComplement, Pow256;
    var (n, signed) := LoadShape(i.op).value;
    var at := Wrap(s.regs[i.rs1] + i.imm);
    assert Execute(env, i, s) == ExecLoad(i, s, n, signed) by {
      LoadDispatch(env, i, s);
    }
    LoadSucceeds(s.mem, at, n);
    if at + n <= |s.mem.data| {
      var bytes := s.mem.data[at..at + n];
      NumberIsWord(bytes);
      Extends(FromLe(bytes), n);
      assert Wrap(FromLe(bytes)) == FromLe(bytes) by {
        WrapSmall(LeWord(bytes));
      }
    }
  }

  lemma WrapSmall(x: u64)
    ensures Wrap(x) == x
  {
  }

  lemma LoadDispatch(env: Env, i: Inst, s: State)
    requires LoadShape(i.op).Some?
    ensures var (n, signed) := LoadShape(i.op).value;
            n <= 8 && Execute(env, i, s) == ExecLoad(i, s, n, signed)
  {
    hide ExecLoad;
  }

  function StoreWidth(op: Op): Option<nat> {
    match op
    case SB => Some(1) case SH => Some(2) case SW => Some(4) case SD => Some(8)
    case _ => None
  }

  /** Byte `k` of a register. */
  function ByteOf(v: nat, k: nat): byte
    decreases k
  {
    if k == 0 then v % 0x100 else ByteOf(v / 0x100, k - 1)
  }

  lemma {:induction false} ByteAt(v: nat, n: nat, k: nat)
    requires k < n
    ensures ToLe(v, n)[k] == ByteOf(v, k)
    decreases n
  {
    if k > 0 {
      ByteAt(v / 0x100, n - 1, k - 1);
    }
  }

  /** The low bytes of a register are in memory, the pages they touch are dirty, and nothing else changed. */
  ghost predicate Stored(m: Mem, m': Mem, at: nat, v: u64, n: nat) {
    && |m'.data| == |m.data| && m'.lr == m.lr && at + n <= |m.data|
    && (forall k :: 0 <= k < |m.data| ==> m'.data[k] == if at <= k < at + n then ByteOf(v, k - at) else m.data[k])
    && (forall p :: 0 <= p < |m.flags| ==>
          m'.flags[p] == if Touches(at, n, p) then m.flags[p].(dirty := true) else m.flags[p])
  }

  lemma WordIsStored(m: Mem, at: u64, v: u64, n: nat)
    requires n in {1, 2, 4, 8}
    ensures StoreWord(m, at, v, n).1.Pass? <==> Storable(m, at, n)
    ensures StoreWord(m, at, v, n).1.Pass? ==> Stored(m, StoreWord(m, at, v, n).0, at, v, n)
    ensures StoreWord(m, at, v, n).1.Fail? ==> StoreWord(m, at, v, n).0 == m
  {
    hide ToLe, ByteOf;
    var (m', s) := StoreWord(m, at, v, n);
    WordStored(m, at, v, n);
    if s.Pass? {
      forall k | 0 <= k < |m.data|
        ensures m'.data[k] == if at <= k < at + n then ByteOf(v, k - at) else m.data[k]
      {
        if at <= k < at + n {
          ByteAt(v, n, k - at);
        }
      }
    }
  }

  /** A store goes ahead exactly where no touched page is executable, and writes the register's low bytes. */
  lemma StoreLaw(env: Env, i: Inst, s: State)
    requires StoreWidth(i.op).Some?
    ensures var n := StoreWidth(i.op).value;
            var o, at := Execute(env, i, s), Wrap(s.regs[i.rs1] + i.imm);
            && (o.err.None? <==> n > 0 && Storable(s.mem, at, n))
            && (o.err.None? ==>
                  && o.st == s.(mem := o.st.mem, pc := Wrap(s.pc + i.len))
                  && Stored(s.mem, o.st.mem, at, s.regs[i.rs2], n))
            && (o.err.Some? ==> Fails(i, s, o) && WhyNotStored(s.mem, at, n, o.err.value))
  {
    hide StoreWord, Stored, Wrap, ByteOf, WhyNotStored;
    var at, n := Wrap(s.regs[i.rs1] + i.imm), StoreWidth(i.op).value;
    WordIsStored(s.mem, at, s.regs[i.rs2], n);
    if !Storable(s.mem, at, n) {
      StoreRefused(s.mem, at, s.regs[i.rs2], n);
    }
  }

  /** Out of bounds, or the first executable page in the way. */
  ghost predicate WhyNotStored(m: Mem, at: u64, n: nat, e: Error) {
    if at + n > |m.data| then e == OutOfBounds(m, at, n)
    else exists p: nat ::
      && p < |m.flags| && Touches(at, n, p) && m.flags[p].executable && e == MemWriteOnExecutablePage(p)
      && forall q :: 0 <= q < p && Touches(at, n, q) ==> q < |m.flags| && !m.flags[q].executable
  }

  lemma StoreRefused(m: Mem, at: u64, v: u64, n: nat)
    requires n in {1, 2, 4, 8} && !Storable(m, at, n)
    ensures StoreWord(m, at, v, n).1.Fail? && WhyNotStored(m, at, n, StoreWord(m, at, v, n).1.error)
  {
    hide ToLe, OutOfBounds;
    assert ToLe(v, n) != [];
    if at + n <= |m.data| {
      var lo, hi := at / 4096, (at + n - 1) / 4096;
      var p := if m.flags[lo].executable then lo else hi;
      PageLemmas.FirstWrongPage(m, lo, hi, false, p);
      assert Touches(at, n, p) && m.flags[p].executable;
    } else {
      Outside(m, at, v, n);
    }
  }

  lemma Outside(m: Mem, at: u64, v: u64, n: nat)
    requires n in {1, 2, 4, 8} && at + n > |m.data|
    ensures StoreWord(m, at, v, n).1 == Fail(OutOfBounds(m, at, n))
  {
    hide ToLe;
    assert ToLe(v, n) != [];
  }

  /** The atomics on words and double words are the ones `Atomics` is about. */
  lemma AtomicWidths(env: Env, i: Inst, s: State)
    ensures i.op.LR_W? ==> Execute(env, i, s) == LoadReserved(i, s, 4)
    ensures i.op.LR_D? ==> Execute(env, i, s) == LoadReserved(i, s, 8)
    ensures i.op.SC_W? ==> Execute(env, i, s) == StoreConditional(i, s, 4)
    ensures i.op.SC_D? ==> Execute(env, i, s) == StoreConditional(i, s, 8)
    ensures i.op.AMO_W? ==> Execute(env, i, s) == AtomicUpdate(env, i, s, 4)
    ensures i.op.AMO_D? ==> Execute(env, i, s) == AtomicUpdate(env, i, s, 8)
  {
    hide LoadReserved, StoreConditional, AtomicUpdate;
  }

  // ---- Sums, comparisons, constants ----

  /** Bit `k` of a number. */
  function Bit(x: nat, k: nat): bool
    decreases k
  {
    if k == 0 then x % 2 == 1 else Bit(x / 2, k - 1)
  }

  lemma {:induction false} OrIsBitwise(x: nat, y: nat, k: nat)
    ensures Bit(Or(x, y), k) <==> Bit(x, k) || Bit(y, k)
    decreases k
  {
    if x == 0 && y == 0 {
      ZeroBits(k);
    } else if k > 0 {
      OrIsBitwise(x / 2, y / 2, k - 1);
    }
  }

  lemma {:induction false} ZeroBits(k: nat)
    ensures !Bit(0, k)
  {
    if k > 0 {
      ZeroBits(k - 1);
    }
  }

  /** The results of the plain register operations, as numbers modulo 2^64; ADDIW is modulo 2^32 and
      sign-extended, and CUSTOM_LOAD_UIMM keeps the low 32 bits. */
  lemma SumLaw(env: Env, i: Inst, s: State)
    ensures var o, a, b := Execute(env, i, s), s.regs[i.rs1], s.regs[i.rs2];
            && (i.op.ADD? ==> Sets(i, s, o, Wrap(a + b)))
            && (i.op.SUB? ==> Sets(i, s, o, Wrap(a - b)))
            && (i.op.SLTU? ==> Sets(i, s, o, if a < b then 1 else 0))
            && (i.op.ADDI? ==> Sets(i, s, o, Wrap(a + i.imm)))
            && (i.op.LUI? ==> Sets(i, s, o, Wrap(i.imm)))
            && (i.op.AUIPC? ==> Sets(i, s, o, Wrap(s.pc + i.imm)))
            && (i.op.CUSTOM_LOAD_IMM? ==> Sets(i, s, o, Wrap(i.imm)))
            && (i.op.CUSTOM_LOAD_UIMM? ==> Sets(i, s, o, i.imm % 0x1_0000_0000))
            && (i.op.ALU? ==> Sets(i, s, o, env.alu(i, a, b)))
  {
    hide Wrap;
  }

  lemma AddWordLaw(env: Env, i: Inst, s: State)
    requires i.op.ADDIW?
    ensures Sets(i, s, Execute(env, i, s), Wrap(TwosComplement((s.regs[i.rs1] + i.imm) % 0x1_0000_0000, 4)))
  {
    var a, x := s.regs[i.rs1], s.regs[i.rs1] + i.imm;
    LowWord(x);
    assert Execute(env, i, s) == Write(i, s, i.rd, SignExtend(Wrap(x), 4));
    hide SignExtend, Wrap, TwosComplement;
  }

  lemma LowWord(x: int)
    ensures SignExtend(Wrap(x), 4) == Wrap(TwosComplement(x % 0x1_0000_0000, 4))
  {
    hide Wrap;
    LowHalf(x);
    ExtendsLow(Wrap(x));
  }

  lemma LowHalf(x: int)
    ensures Wrap(x) % 0x1_0000_0000 == x % 0x1_0000_0000
  {
  }

  lemma ExtendsLow(y: u64)
    ensures SignExtend(y, 4) == Wrap(TwosComplement(y % 0x1_0000_0000, 4))
  {
    var h, l := y / 0x1_0000_0000, y % 0x1_0000_0000;
    ModUnique(y + 0x8000_0000, 0x1_0000_0000, if l < 0x8000_0000 then h else h + 1,
              if l < 0x8000_0000 then l + 0x8000_0000 else l - 0x8000_0000);
  }

  lemma OrLaw(env: Env, i: Inst, s: State)
    requires i.op.OR?
    ensures exists v: u64 ::
              && Sets(i, s, Execute(env, i, s), v)
              && forall k: nat :: Bit(v, k) <==> Bit(s.regs[i.rs1], k) || Bit(s.regs[i.rs2], k)
  {
    hide Or, Bit, Wrap;
    var a, b := s.regs[i.rs1], s.regs[i.rs2];
    forall k: nat
      ensures Bit(Or64(a, b), k) <==> Bit(a, k) || Bit(b, k)
    {
      OrIsBitwise(a, b, k);
    }
    assert Sets(i, s, Execute(env, i, s), Or64(a, b));
  }

  // ---- Products ----

  /** `high` and `low` are the 128-bit product, `high` read as signed unless both factors are not. */
  ghost predicate Product(op: Op, a: u64, b: u64, high: u64, low: u64) {
    match op
    case MULH => Signed(high) * 0x1_0000_0000_0000_0000 + low == Signed(a) * Signed(b)
    case MULHU => high * 0x1_0000_0000_0000_0000 + low == a * b
    case MULHSU => Signed(high) * 0x1_0000_0000_0000_0000 + low == Signed(a) * b
    case _ => false
  }

  /** The product determines both words. */
  lemma ProductUnique(op: Op, a: u64, b: u64, high: u64, low: u64, high': u64, low': u64)
    requires Product(op, a, b, high, low) && Product(op, a, b, high', low')
    ensures high == high' && low == low'
  {
  }

  /** The opcode whose two results a wide multiplication gives at once. */
  function HighOf(op: Op): Op {
    match op case WIDE_MUL => MULH case WIDE_MULU => MULHU case WIDE_MULSU => MULHSU case _ => op
  }

  /** MUL gives the low word of any of the three products; the wide forms give both. */
  lemma ProductLaw(env: Env, i: Inst, s: State, of: Op)
    requires of.MULH? || of.MULHU? || of.MULHSU?
    requires i.op.MUL? || i.op == of || (i.op != HighOf(i.op) == of)
    ensures exists high: u64, low: u64 ::
              && Product(of, s.regs[i.rs1], s.regs[i.rs2], high, low)
              && (i.op.MUL? ==> Sets(i, s, Execute(env, i, s), low))
              && (i.op == of ==> Sets(i, s, Execute(env, i, s), high))
              && (HighOf(i.op) != i.op ==> SetsTwo(i, s, Execute(env, i, s), high, low))
  {
    hide Mul, MulHighSigned, MulHighUnsigned, MulHighSignedUnsigned, Wrap, Signed;
    var a, b := s.regs[i.rs1], s.regs[i.rs2];
    WideMulSigned(a, b);
    WideMulUnsigned(a, b);
    WideMulSignedUnsigned(a, b);
    var high := if of.MULH? then MulHighSigned(a, b) else if of.MULHU? then MulHighUnsigned(a, b)
                else MulHighSignedUnsigned(a, b);
    assert Product(of, a, b, high, Mul(a, b));
  }

  // ---- Divisions ----

  predicate DividesUnsignedOp(op: Op) {
    op.DIVU? || op.REMU? || op.WIDE_DIVU?
  }

  predicate DividesSignedOp(op: Op) {
    op.DIV? || op.REM? || op.WIDE_DIV?
  }

  /** Every division leaves the quotient, the remainder, or both. */
  lemma DivisionOnRegisters(env: Env, i: Inst, s: State)
    requires DividesUnsignedOp(i.op) || DividesSignedOp(i.op)
    ensures exists q: u64, r: u64 ::
              && (if DividesUnsignedOp(i.op) then DividesUnsigned(s.regs[i.rs1], s.regs[i.rs2], q, r)
                  else DividesSigned(s.regs[i.rs1], s.regs[i.rs2], q, r))
              && (i.op.DIV? || i.op.DIVU? ==> Sets(i, s, Execute(env, i, s), q))
              && (i.op.REM? || i.op.REMU? ==> Sets(i, s, Execute(env, i, s), r))
              && (i.op.WIDE_DIV? || i.op.WIDE_DIVU? ==> SetsTwo(i, s, Execute(env, i, s), q, r))
  {
    hide DivUnsigned, RemUnsigned, DivSigned, RemSigned, DividesSigned, DividesUnsigned, Wrap;
    var a, b := s.regs[i.rs1], s.regs[i.rs2];
    UnsignedQuotient(a, b);
    SignedQuotient(a, b);
    var q := if DividesUnsignedOp(i.op) then DivUnsigned(a, b) else DivSigned(a, b);
    var r := if DividesUnsignedOp(i.op) then RemUnsigned(a, b) else RemSigned(a, b);
    assert if DividesUnsignedOp(i.op) then DividesUnsigned(a, b, q, r) else DividesSigned(a, b, q, r);
  }

  // ---- System calls, fences, breakpoints, invalid opcodes ----

  /** `e` is the low byte of `x` as an i8. */
  predicate LowSignedByte(x: u64, e: int) {
    -0x80 <= e < 0x80 && (x - e) % 0x100 == 0
  }

  /** Call 93 stops the machine with the low byte of A0. */
  lemma ExitLaw(env: Env, i: Inst, s: State)
    requires i.op.ECALL? && s.regs[A7] == 93
    ensures var o := Execute(env, i, s);
            && o == Outcome(s.(exitCode := o.st.exitCode, running := false, pc := Wrap(s.pc + i.len)), None)
            && LowSignedByte(s.regs[A0], o.st.exitCode)
  {
    hide Wrap;
    LowByte(s.regs[A0]);
  }

  lemma LowByte(x: u64)
    ensures LowSignedByte(x, ToI8(x))
  {
  }

  /** Handler `k` is the first that knows the number in A7. */
  ghost predicate Answers(env: Env, s: State, k: nat) {
    && k < |env.syscalls|
    && !env.syscalls[k](s.regs, s.mem, s.cycles).Unprocessed?
    && forall j :: 0 <= j < k ==> env.syscalls[j](s.regs, s.mem, s.cycles).Unprocessed?
  }

  lemma {:induction false} FirstAnswers(env: Env, s: State, from: nat, k: nat)
    requires from <= k && Answers(env, s, k)
    ensures AskSyscalls(env, from, s) == env.syscalls[k](s.regs, s.mem, s.cycles)
    decreases k - from
  {
    if from < k {
      FirstAnswers(env, s, from + 1, k);
    }
  }

  /** A call that is answered leaves the answer's registers and memory and costs its cycles; overflow of
      the counter comes before excess of the limit, and leaves the counter alone. */
  lemma CallLaw(env: Env, i: Inst, s: State, k: nat)
    requires i.op.ECALL? && s.regs[A7] != 93 && Answers(env, s, k)
    ensures var o, r := Execute(env, i, s), env.syscalls[k](s.regs, s.mem, s.cycles);
            var t := s.(regs := r.regs, mem := r.mem, pc := Wrap(s.pc + i.len));
            if r.SysFailed? then o == Outcome(t, Some(r.error))
            else
              var total := s.cycles + r.addedCycles;
              if total >= 0x1_0000_0000_0000_0000 then o == Outcome(t, Some(CyclesOverflow))
              else if total > s.maxCycles then o == Outcome(t.(cycles := total), Some(CyclesExceeded))
              else o == Outcome(t.(cycles := total), None)
  {
    hide Wrap;
    FirstAnswers(env, s, 0, k);
    assert Execute(env, i, s) == EnvironmentCall(env, i, s);
  }

  lemma {:induction false} NobodyAnswers(env: Env, s: State, from: nat)
    requires from <= |env.syscalls|
    requires forall j :: from <= j < |env.syscalls| ==> env.syscalls[j](s.regs, s.mem, s.cycles).Unprocessed?
    ensures AskSyscalls(env, from, s) == SysFailed(s.regs, s.mem, InvalidEcall(s.regs[A7]))
    decreases |env.syscalls| - from
  {
    if from < |env.syscalls| {
      NobodyAnswers(env, s, from + 1);
    }
  }

  /** A call nobody knows fails with its number. */
  lemma UnknownCallLaw(env: Env, i: Inst, s: State)
    requires i.op.ECALL? && s.regs[A7] != 93
    requires forall j :: 0 <= j < |env.syscalls| ==> env.syscalls[j](s.regs, s.mem, s.cycles).Unprocessed?
    ensures Execute(env, i, s) == Outcome(s.(pc := Wrap(s.pc + i.len)), Some(InvalidEcall(s.regs[A7])))
  {
    hide Wrap;
    NobodyAnswers(env, s, 0);
    assert Execute(env, i, s) == EnvironmentCall(env, i, s);
  }

  /** Fences and breakpoints do nothing; an invalid opcode fails. */
  lemma StillLaw(env: Env, i: Inst, s: State)
    ensures i.op.EBREAK? || i.op.FENCE? || i.op.FENCEI? ==>
              Execute(env, i, s) == Outcome(s.(pc := Wrap(s.pc + i.len)), None)
    ensures i.op.INVALID? ==> Execute(env, i, s) == Outcome(s.(pc := Wrap(s.pc + i.len)), Some(InvalidOp(i.op.code)))
  {
    hide Wrap;
  }

  // ---- Costs ----

  /** The estimated cost of every opcode. W-forms and the rest of the register operations go by number:
      MULW is 0x2e, the W-divisions 0x19, 0x1a, 0x33 and 0x34. */
  lemma EstimateLaw(i: Inst)
    ensures EstimateCycles(i) == 500 <==> i.op.ECALL? || i.op.EBREAK?
    ensures EstimateCycles(i) == 32 <==>
            || i.op.DIV? || i.op.DIVU? || i.op.REM? || i.op.REMU? || i.op.WIDE_DIV? || i.op.WIDE_DIVU?
            || i.op in {ALU(0x19), ALU(0x1a), ALU(0x33), ALU(0x34)}
    ensures EstimateCycles(i) == 5 <==>
            || i.op.MUL? || i.op.MULH? || i.op.MULHU? || i.op.MULHSU? || i.op == ALU(0x2e)
            || i.op.WIDE_MUL? || i.op.WIDE_MULU? || i.op.WIDE_MULSU?
    ensures EstimateCycles(i) == 4 <==> i.op.LR_W? || i.op.SC_W? || i.op.AMO_W?
    ensures EstimateCycles(i) == 3 <==>
            || IsBranch(i.op) || i.op.JAL? || i.op.JALR? || i.op.FAR_JUMP_REL? || i.op.FAR_JUMP_ABS?
            || (LoadShape(i.op).Some? && !i.op.LD?) || (StoreWidth(i.op).Some? && !i.op.SD?)
            || i.op.LR_D? || i.op.SC_D? || i.op.AMO_D?
    ensures EstimateCycles(i) == 2 <==> i.op.LD? || i.op.SD?
    ensures EstimateCycles(i) in {1, 2, 3, 4, 5, 32, 500}
  {
  }
}
