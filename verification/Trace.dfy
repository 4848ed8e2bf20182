/** `TraceMachine`: basic blocks decoded once, kept in 8192 slots and replayed. */
module Trace {
  import opened Words
  import opened Outcomes
  import opened Pages
  import opened Instructions
  import opened Exec
  import opened KeepCode
  import opened D = Decode
  import opened Fusion
  import opened FusionProofs
  import opened Run
  import Decoder
  import M = Machine

  const TRACE_SIZE: nat := 8192
  const TRACE_ITEM_LENGTH: nat := 16

  /** The first `instruction_count` entries of a trace's two arrays; a thread is the handler its
      opcode selected. */
  datatype Item = Item(address: u64, length: u64, instructions: seq<Inst>, threads: seq<Op>)

  const EMPTY := Item(0, 0, [], [])

  function CalculateSlot(pc: u64): nat {
    pc / 4 % TRACE_SIZE
  }

  /** Code words less than 32 KB apart have slots of their own. */
  lemma SlotsApart(a: u64, b: u64)
    requires a / 4 < b / 4 < a / 4 + TRACE_SIZE
    ensures CalculateSlot(a) != CalculateSlot(b)
  {
    var x, y := a / 4, b / 4;
    assert x / TRACE_SIZE == y / TRACE_SIZE || y / TRACE_SIZE == x / TRACE_SIZE + 1;
  }

  /** Before VERSION2 only the low 32 bits of pc are compared with a slot's address. */
  function LookupAddress(version: nat, pc: u64): u64 {
    if version < 2 then pc % 0x1_0000_0000 else pc
  }

  // ---- Blocks ----

  /** `w` is the straight-line code decoded from `pc` on: only its last instruction may end a
      basic block. */
  ghost predicate Block(isa: Isa, mop: bool, m: Mem, pc: u64, w: seq<Inst>)
    decreases |w|
  {
    w == [] ||
    (&& DecodeAny(isa, mop, m, pc) == Ok(w[0])
     && (|w| > 1 ==> !IsBasicBlockEnd(w[0]))
     && Block(isa, mop, m, Plus(pc, w[0].len), w[1..]))
  }

  ghost predicate NoneEnds(w: seq<Inst>) {
    forall k :: 0 <= k < |w| ==> !IsBasicBlockEnd(w[k])
  }

  /** A filled slot holds the block at its address, and each instruction's own handler. */
  ghost predicate Faithful(isa: Isa, mop: bool, m: Mem, t: Item) {
    && Block(isa, mop, m, t.address, t.instructions)
    && |t.threads| == |t.instructions|
    && forall k :: 0 <= k < |t.threads| ==> t.threads[k] == t.instructions[k].op
  }

  ghost predicate AllFaithful(isa: Isa, mop: bool, m: Mem, traces: seq<Item>) {
    forall k :: 0 <= k < |traces| ==> Faithful(isa, mop, m, traces[k])
  }

  lemma SameDecodeAny(isa: Isa, mop: bool, m: Mem, m': Mem, pc: u64)
    requires SameCode(m, m')
    ensures DecodeAny(isa, mop, m, pc) == DecodeAny(isa, mop, m', pc)
  {
    hide DecodeRaw, Fuse, Ahead, SameCode;
    SameDecode(isa, m, m', pc);
    SameAhead(isa, m, m', pc, 5);
  }

  lemma {:induction false} BlockKept(isa: Isa, mop: bool, m: Mem, m': Mem, pc: u64, w: seq<Inst>)
    requires SameCode(m, m') && Block(isa, mop, m, pc, w)
    ensures Block(isa, mop, m', pc, w)
    decreases |w|
  {
    hide DecodeAny, SameCode;
    if w != [] {
      SameDecodeAny(isa, mop, m, m', pc);
      BlockKept(isa, mop, m, m', Plus(pc, w[0].len), w[1..]);
    }
  }

  lemma AllKept(isa: Isa, mop: bool, m: Mem, m': Mem, traces: seq<Item>)
    requires SameCode(m, m') && AllFaithful(isa, mop, m, traces)
    ensures AllFaithful(isa, mop, m', traces)
  {
    hide Block, SameCode;
    forall k | 0 <= k < |traces|
      ensures Faithful(isa, mop, m', traces[k])
    {
      BlockKept(isa, mop, m, m', traces[k].address, traces[k].instructions);
    }
  }

  /** A block grows by the instruction decoded behind it. */
  lemma {:induction false} BlockGrows(isa: Isa, mop: bool, m: Mem, pc: u64, w: seq<Inst>, i: Inst)
    requires Block(isa, mop, m, pc, w) && NoneEnds(w)
    requires DecodeAny(isa, mop, m, Plus(pc, LenSum(w))) == Ok(i)
    ensures Block(isa, mop, m, pc, w + [i]) && LenSum(w + [i]) == LenSum(w) + i.len
    decreases |w|
  {
    hide DecodeAny;
    if w == [] {
      assert Plus(pc, 0) == pc;
      assert w + [i] == [i];
    } else {
      PcSum(pc, w[0].len, LenSum(w[1..]));
      assert (w + [i])[1..] == w[1..] + [i];
      BlockGrows(isa, mop, m, Plus(pc, w[0].len), w[1..], i);
    }
  }

  // ---- Replaying a block is stepping ----

  /** What ends a block: AUIPC, branches, jumps, far jumps, calls, breakpoints and fences, and nothing
      else among the opcodes that are not held by number. */
  lemma BlockEnds(i: Inst)
    requires !i.op.ALU? && !i.op.AMO_W? && !i.op.AMO_D? && !i.op.INVALID?
    ensures IsBasicBlockEnd(i) <==>
            || i.op.AUIPC? || i.op.BEQ? || i.op.BNE? || i.op.BLT? || i.op.BGE? || i.op.BLTU? || i.op.BGEU?
            || i.op.JAL? || i.op.JALR? || i.op.FAR_JUMP_REL? || i.op.FAR_JUMP_ABS?
            || i.op.ECALL? || i.op.EBREAK? || i.op.FENCE? || i.op.FENCEI?
  {
  }

  /** An instruction that does not end a basic block goes on to the next one and stops nothing. */
  lemma GoesOn(env: Env, i: Inst, s: State)
    requires !IsBasicBlockEnd(i) && Execute(env, i, s).err.None?
    ensures Execute(env, i, s).st.pc == Plus(s.pc, i.len) && Execute(env, i, s).st.running == s.running
  {
    hide Value, FusedRegs, Upd, Load, StoreWord, SignExtend;
  }

  /** Charging and executing the head of the block is one step of the machine, and leaves the rest
      of the block to do. */
  lemma BlockStep(cfg: Config, s: State, w: seq<Inst>)
    requires KeepsCode(cfg.env) && w != [] && Block(cfg.isa, cfg.mop, s.mem, s.pc, w)
    ensures Step(cfg, s) == Charge(cfg, w[0], s)
    ensures SameCode(s.mem, Step(cfg, s).st.mem)
    ensures Step(cfg, s).err.None? && !IsBasicBlockEnd(w[0]) ==>
              var t := Step(cfg, s).st;
              t.running == s.running && t.pc == Plus(s.pc, w[0].len) && Block(cfg.isa, cfg.mop, t.mem, t.pc, w[1..])
  {
    hide Execute, DecodeAny, KeepsCode, SameCode, IsBasicBlockEnd;
    var o := Run.AddCycles(s, cfg.cost(w[0]));
    SameCodeSelf(s.mem);
    if o.err.None? {
      ExecuteKeepsCode(cfg.env, w[0], o.st);
      var t := Execute(cfg.env, w[0], o.st).st;
      if Execute(cfg.env, w[0], o.st).err.None? && !IsBasicBlockEnd(w[0]) {
        GoesOn(cfg.env, w[0], o.st);
        BlockKept(cfg.isa, cfg.mop, s.mem, t.mem, t.pc, w[1..]);
      }
    }
  }

  /** Where decoding a block ahead fails, stepping fails too: at the latest on the instruction that
      does not decode. */
  lemma {:induction false} StuckAhead(cfg: Config, s: State, w: seq<Inst>)
    requires KeepsCode(cfg.env) && s.running && Block(cfg.isa, cfg.mop, s.mem, s.pc, w) && NoneEnds(w)
    requires DecodeAny(cfg.isa, cfg.mop, s.mem, Plus(s.pc, LenSum(w))).Err?
    ensures RunN(cfg, s, |w| + 1).Stopped?
    decreases |w|
  {
    hide Execute, DecodeAny, KeepsCode, SameCode, IsBasicBlockEnd;
    if w == [] {
      assert Plus(s.pc, 0) == s.pc;
    } else {
      BlockStep(cfg, s, w);
      if Step(cfg, s).err.None? {
        var t := Step(cfg, s).st;
        PcSum(s.pc, w[0].len, LenSum(w[1..]));
        SameDecodeAny(cfg.isa, cfg.mop, s.mem, t.mem, Plus(s.pc, LenSum(w)));
        StuckAhead(cfg, t, w[1..]);
      }
    }
  }

  // ---- The machine ----

  class TraceMachine {
    const machine: M.DefaultMachine
    var traces: seq<Item>

    ghost predicate Valid(decoder: Decoder.DefaultDecoder)
      reads this, machine, decoder.instructionsCache
    {
      && decoder.Valid() && decoder.Trusts(machine.memory)
      && |traces| <= TRACE_SIZE
      && AllFaithful(decoder.isa, decoder.mop, machine.memory, traces)
    }

    constructor (machine: M.DefaultMachine)
      ensures this.machine == machine && traces == []
    {
      this.machine := machine;
      this.traces := [];
    }

    /** Decodes the block at `pc` into its slot. A failure leaves the slot empty. */
    method Fill(decoder: Decoder.DefaultDecoder, slot: nat, pc: u64) returns (err: Option<Error>, ghost w: seq<Inst>)
      requires Valid(decoder) && slot < |traces| == TRACE_SIZE
      modifies this`traces, decoder.instructionsCache
      ensures Valid(decoder) && |traces| == TRACE_SIZE
      ensures err.None? ==> traces[slot].address == pc && 0 < |traces[slot].instructions| <= TRACE_ITEM_LENGTH
      ensures err.None? ==> traces[slot].length == Wrap(LenSum(traces[slot].instructions))
      ensures err.None? ==> var w := traces[slot].instructions;
                |w| == TRACE_ITEM_LENGTH || IsBasicBlockEnd(w[|w| - 1])
      ensures err.Some? ==>
                && Block(decoder.isa, decoder.mop, machine.memory, pc, w) && NoneEnds(w)
                && DecodeAny(decoder.isa, decoder.mop, machine.memory, Plus(pc, LenSum(w))) == Err(err.value)
    {
      hide DecodeAny, IsBasicBlockEnd, Trusted;
      traces := traces[slot := EMPTY];
      var currentPc := pc;
      var instructions: seq<Inst>, threads: seq<Op> := [], [];
      var ended := false;
      assert Plus(pc, 0) == pc;
      while |instructions| < TRACE_ITEM_LENGTH && !ended
        invariant Valid(decoder) && |traces| == TRACE_SIZE && |instructions| <= TRACE_ITEM_LENGTH
        invariant Faithful(decoder.isa, decoder.mop, machine.memory, Item(pc, 0, instructions, threads))
        invariant currentPc == Plus(pc, LenSum(instructions))
        invariant if ended then instructions != [] && IsBasicBlockEnd(instructions[|instructions| - 1])
                  else NoneEnds(instructions)
        decreases TRACE_ITEM_LENGTH - |instructions|
      {
        var r := decoder.Decode(machine.memory, currentPc);
        if r.Err? {
          return Some(r.error), instructions;
        }
        var i := r.value;
        BlockGrows(decoder.isa, decoder.mop, machine.memory, pc, instructions, i);
        PcSum(pc, LenSum(instructions), i.len);
        currentPc := Plus(currentPc, i.len);
        instructions, threads := instructions + [i], threads + [i.op];
        ended := IsBasicBlockEnd(i);
      }
      Distance(pc, LenSum(instructions));
      traces := traces[slot := Item(pc, Minus(currentPc, pc), instructions, threads)];
      return None, [];
    }

    /** Replays `instructions[k..]`. */
    method Replay(decoder: Decoder.DefaultDecoder, slot: nat, ghost start: State, ghost before: nat)
      returns (err: Option<Error>, ghost steps: nat)
      requires Valid(decoder) && slot < |traces| == TRACE_SIZE && traces[slot].address == machine.pc
      requires traces[slot].instructions != [] && KeepsCode(machine.env) && machine.running
      requires RunN(machine.Cfg(decoder), start, before) == Running(machine.St())
      requires forall i :: machine.cost(i) >= 1
      modifies machine
      ensures Valid(decoder)
      ensures RunN(machine.Cfg(decoder), start, steps)
           == if err.Some? then Stopped(err.value, machine.St())
              else if machine.running then Running(machine.St())
              else Halted(machine.exitCode, machine.St())
      ensures err.None? ==> machine.maxCycles == old(machine.maxCycles) >= machine.cycles > old(machine.cycles)
    {
      hide DecodeAny, IsBasicBlockEnd, RunN, KeepsCode, SameCode, Trusted;
      steps := before;
      ghost var cfg := machine.Cfg(decoder);
      ghost var w := traces[slot].instructions;
      for k := 0 to |traces[slot].instructions|
        invariant Valid(decoder) && traces[slot].instructions == w
        invariant k < |w| ==> machine.running && Block(cfg.isa, cfg.mop, machine.memory, machine.pc, w[k..])
        invariant RunN(cfg, start, steps)
               == if machine.running then Running(machine.St()) else Halted(machine.exitCode, machine.St())
        invariant machine.maxCycles == old(machine.maxCycles)
        invariant k > 0 ==> machine.maxCycles >= machine.cycles > old(machine.cycles)
        invariant machine.cycles >= old(machine.cycles)
      {
        ghost var now := machine.St();
        ghost var m := machine.memory;
        BlockStep(cfg, now, w[k..]);
        OneMore(cfg, start, steps, now);
        steps := steps + 1;
        var i := traces[slot].instructions[k];
        err := machine.AddCycles(machine.cost(i));
        if err.Some? {
          return;
        }
        assert i.(op := traces[slot].threads[k]) == i;
        err := machine.ExecuteWithThread(i, traces[slot].threads[k]);
        machine.TrustStays(decoder, m, machine.memory);
        AllKept(cfg.isa, cfg.mop, m, machine.memory, traces);
        if err.Some? {
          return;
        }
        StepStaysWithinLimit(cfg, now);
      }
      err := None;
    }

    method RunWithDecoder(decoder: Decoder.DefaultDecoder) returns (r: Result<int>, ghost steps: nat)
      requires Valid(decoder) && machine.version >= 2 && KeepsCode(machine.env)
      requires forall i :: machine.cost(i) >= 1
      modifies this`traces, machine, decoder.instructionsCache
      ensures Valid(decoder)
      ensures var start := old(machine.St()).(running := true);
              match r
              case Ok(code) => RunN(machine.Cfg(decoder), start, steps) == Halted(code, machine.St())
              case Err(e) => FailsAlike(machine.Cfg(decoder), start, steps, e, machine.St())
    {
      hide DecodeAny, RunN, KeepsCode, SameCode, Trusted, Block, Step, LenSum, Plus, NoneEnds;
      machine.running := true;
      EmptiesFaithful(decoder.isa, decoder.mop, machine.memory, traces, TRACE_SIZE - |traces|);
      traces := traces + Empties(TRACE_SIZE - |traces|);
      ghost var start := machine.St();
      ghost var cfg := machine.Cfg(decoder);
      steps := 0;
      M.NoSteps(cfg, start);
      while machine.running
        invariant Valid(decoder) && |traces| == TRACE_SIZE
        invariant RunN(cfg, start, steps)
               == if machine.running then Running(machine.St()) else Halted(machine.exitCode, machine.St())
        decreases machine.running, machine.maxCycles - machine.cycles
      {
        var pc := machine.pc;
        var slot := CalculateSlot(pc);
        var addressMatch := traces[slot].address == LookupAddress(machine.version, pc);
        if !addressMatch || |traces[slot].instructions| == 0 {
          ghost var w;
          var err;
          err, w := Fill(decoder, slot, pc);
          if err.Some? {
            StuckAhead(cfg, machine.St(), w);
            RunSplit(cfg, start, steps, |w| + 1);
            assert DecodeAny(cfg.isa, cfg.mop, machine.memory, Plus(pc, LenSum(w))) == Err(err.value);
            return Err(err.value), steps + |w| + 1;
          }
        }
        var err;
        err, steps := Replay(decoder, slot, start, steps);
        if err.Some? {
          return Err(err.value), steps;
        }
      }
      return Ok(machine.exitCode), steps;
    }
  }

  /** The stepping run stops too: with the same error in the same state, or, if the error is that an
      instruction ahead does not decode, at that instruction or before, coming through the same state. */
  ghost predicate FailsAlike(cfg: Config, s: State, steps: nat, e: Error, t: State) {
    && RunN(cfg, s, steps).Stopped?
    && (RunN(cfg, s, steps) == Stopped(e, t) || (PassesThrough(cfg, s, steps, t) && FailsAhead(cfg, t, e)))
  }

  ghost predicate PassesThrough(cfg: Config, s: State, steps: nat, t: State) {
    exists k: nat :: k < steps && RunN(cfg, s, k) == Running(t)
  }

  ghost predicate FailsAhead(cfg: Config, t: State, e: Error) {
    exists at: u64 :: DecodeAny(cfg.isa, cfg.mop, t.mem, at) == Err(e)
  }

  /** A traced run that exceeds its cycles does so where the stepping run does. */
  lemma ExceedsAlike(cfg: Config, s: State, steps: nat, t: State)
    requires FailsAlike(cfg, s, steps, CyclesExceeded, t)
    ensures RunN(cfg, s, steps) == Stopped(CyclesExceeded, t)
  {
    hide DecodeAny, RunN;
    if FailsAhead(cfg, t, CyclesExceeded) {
      var at: u64 :| DecodeAny(cfg.isa, cfg.mop, t.mem, at) == Err(CyclesExceeded);
      DecodeErrors(cfg.isa, cfg.mop, t.mem, at);
    }
  }

  function Empties(n: nat): (s: seq<Item>)
    ensures |s| == n && forall k :: 0 <= k < n ==> s[k] == EMPTY
  {
    seq(n, _ => EMPTY)
  }

  lemma EmptiesFaithful(isa: Isa, mop: bool, m: Mem, traces: seq<Item>, n: nat)
    requires AllFaithful(isa, mop, m, traces)
    ensures AllFaithful(isa, mop, m, traces + Empties(n))
  {
    hide DecodeAny;
  }

  lemma Distance(pc: u64, n: nat)
    ensures Minus(Plus(pc, n), pc) == Wrap(n)
  {
  }

  /** The two ways of running a program agree: one returns an exit code exactly when the other does,
      and then the same one, with the same registers, memory, pc and cycles. */
  method RunBoth(trace: TraceMachine, plain: M.DefaultMachine, d: Decoder.DefaultDecoder, e: Decoder.DefaultDecoder)
    returns (a: Result<int>, b: Result<int>)
    requires trace.Valid(d) && e.Valid() && e.Trusts(plain.memory)
    requires d.isa == e.isa && d.mop == e.mop && trace.machine.version == plain.version >= 2
    requires trace.machine != plain && d.instructionsCache != e.instructionsCache
    requires trace.machine.env == plain.env && trace.machine.cost == plain.cost && trace.machine.St() == plain.St()
    requires KeepsCode(plain.env) && forall i :: plain.cost(i) >= 1
    modifies trace, trace.machine, plain, d.instructionsCache, e.instructionsCache
    ensures a.Ok? <==> b.Ok?
    ensures a.Ok? ==> a == b && trace.machine.St() == plain.St()
    ensures a == Err(CyclesExceeded) ==> b == a && trace.machine.St() == plain.St()
  {
    hide RunN, DecodeAny, KeepsCode, SameCode, Trusted, Block;
    ghost var start := plain.St().(running := true);
    ghost var m, n;
    a, m := trace.RunWithDecoder(d);
    b, n := plain.RunWithDecoder(e);
    EndIsUnique(plain.Cfg(e), start, m, n);
    if a == Err(CyclesExceeded) {
      ExceedsAlike(plain.Cfg(e), start, m, trace.machine.St());
    }
  }
}
