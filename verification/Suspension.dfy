/** Suspending a run at its cycle limit and resuming it elsewhere with more cycles: the result is
    that of the run that was never interrupted. */
module Suspension {
  import opened Words
  import opened Outcomes
  import opened Pages
  import opened CodeFreeze
  import opened Instructions
  import opened Exec
  import opened KeepCode
  import opened D = Decode
  import opened Fusion
  import opened Run
  import opened Tracking
  import opened History
  import opened SnapshotContext
  import M = Machine
  import Decoder

  // ---- The page map beside a running machine ----

  /** What a system call does to memory and page map, as operations on the context. */
  type Acts = (nat, RegFile, Mem, u64) -> seq<Act>

  /** A system call that handles its number does fine acts, and leaves the memory they leave; loading
      data from the source is among them. */
  ghost predicate CallsAct(env: Env, load: Loader, full: Id -> seq<byte>, acts: Acts) {
    forall k, regs: RegFile, m: Mem, c: u64 ::
      0 <= k < |env.syscalls| && !env.syscalls[k](regs, m, c).Unprocessed? ==>
        && AllFine(load, full, m, map[], acts(k, regs, m, c))
        && env.syscalls[k](regs, m, c).mem == DoAll(load, m, map[], acts(k, regs, m, c)).0
  }

  /** The page map that the first system call to know the number leaves. */
  function AskPages(load: Loader, env: Env, acts: Acts, k: nat, s: State, pages: PageMap): PageMap
    requires k <= |env.syscalls|
    decreases |env.syscalls| - k
  {
    if k == |env.syscalls| then pages
    else if env.syscalls[k](s.regs, s.mem, s.cycles).Unprocessed? then AskPages(load, env, acts, k + 1, s, pages)
    else DoAll(load, s.mem, pages, acts(k, s.regs, s.mem, s.cycles)).1
  }

  function PagesStep(load: Loader, cfg: Config, acts: Acts, s: State, pages: PageMap): PageMap {
    match DecodeAny(cfg.isa, cfg.mop, s.mem, s.pc)
    case Err(_) => pages
    case Ok(i) =>
      var o := Run.AddCycles(s, cfg.cost(i));
      if o.err.Some? || !i.op.ECALL? || o.st.regs[A7] == 93 then pages
      else AskPages(load, cfg.env, acts, 0, o.st, pages)
  }

  /** The page map after the at most `n` steps of a run. */
  function PagesAfter(load: Loader, cfg: Config, acts: Acts, s: State, pages: PageMap, n: nat): PageMap
    decreases n
  {
    if !s.running || n == 0 then pages
    else
      var o := Step(cfg, s);
      var pages' := PagesStep(load, cfg, acts, s, pages);
      if o.err.Some? then pages' else PagesAfter(load, cfg, acts, o.st, pages', n - 1)
  }

  lemma {:induction false} PagesSettle(load: Loader, cfg: Config, acts: Acts, s: State, pages: PageMap, n: nat,
                                       more: nat)
    requires !RunN(cfg, s, n).Running? && n <= more
    ensures PagesAfter(load, cfg, acts, s, pages, more) == PagesAfter(load, cfg, acts, s, pages, n)
    decreases n
  {
    hide Step, PagesStep;
    if s.running && Step(cfg, s).err.None? {
      PagesSettle(load, cfg, acts, Step(cfg, s).st, PagesStep(load, cfg, acts, s, pages), n - 1, more - 1);
    }
  }

  // ---- What happens to memory does not depend on the page map ----

  lemma {:induction false} UntrackBlind(m: Mem, p: PageMap, q: PageMap, page: u64, last: nat)
    ensures UntrackRange(m, p, page, last).0 == UntrackRange(m, q, page, last).0
    ensures UntrackRange(m, p, page, last).2 == UntrackRange(m, q, page, last).2
    decreases last + 1 - page
  {
    if page <= last && SetFlag(m, page, DIRTY).1.Pass? {
      UntrackBlind(SetFlag(m, page, DIRTY).0, p - {page}, q - {page}, page + 1, last);
    }
  }

  lemma {:induction false} TrackBlind(m: Mem, p: PageMap, q: PageMap, page: u64, n: nat, id: Id, offset: u64)
    ensures TrackRange(m, p, page, n, id, offset).0 == TrackRange(m, q, page, n, id, offset).0
    decreases n
  {
    if n > 0 && ClearFlag(m, page, DIRTY).1.Pass? {
      var m' := ClearFlag(m, page, DIRTY).0;
      var entry := Tracked(id, offset, m'.flags[page]);
      TrackBlind(m', p[page := entry], q[page := entry], page + 1, n - 1, id, Plus(offset, 4096));
    }
  }

  lemma TrackPagesBlind(m: Mem, p: PageMap, q: PageMap, start: u64, size: u64, id: Id, offset: u64)
    ensures Tracking.TrackPages(m, p, start, size, id, offset).0 == Tracking.TrackPages(m, q, start, size, id, offset).0
  {
    hide RoundUp;
    var skipped := Minus(RoundUp(start), start);
    if skipped <= size {
      TrackBlind(m, p, q, RoundUp(start) / 4096, (size - skipped) / 4096, id, Plus(offset, skipped));
    }
  }

  lemma UntrackPagesBlind(m: Mem, p: PageMap, q: PageMap, start: u64, size: u64)
    ensures Tracking.UntrackPages(m, p, start, size).0 == Tracking.UntrackPages(m, q, start, size).0
    ensures Tracking.UntrackPages(m, p, start, size).2 == Tracking.UntrackPages(m, q, start, size).2
  {
    if size > 0 {
      UntrackBlind(m, p, q, start / 4096, Minus(Plus(start, size), 1) / 4096);
    }
  }

  lemma StoreBlind(m: Mem, p: PageMap, q: PageMap, addr: u64, data: seq<byte>, fullLength: u64, id: Id, offset: u64,
                   sizeAddr: u64)
    requires |data| < 0x1_0000_0000_0000_0000
    ensures StoreLoaded(m, p, addr, data, fullLength, id, offset, sizeAddr).0
         == StoreLoaded(m, q, addr, data, fullLength, id, offset, sizeAddr).0
  {
    hide StoreWord, Store, Tracking.TrackPages, Tracking.UntrackPages;
    var m1 := StoreWord(m, sizeAddr, fullLength, 8).0;
    UntrackPagesBlind(m1, p, q, addr, |data|);
    var (m2, p2, _) := Tracking.UntrackPages(m1, p, addr, |data|);
    var (_, q2, _) := Tracking.UntrackPages(m1, q, addr, |data|);
    TrackPagesBlind(Store(m2, addr, data).0, p2, q2, addr, |data|, id, offset);
  }

  lemma DoBlind(load: Loader, m: Mem, p: PageMap, q: PageMap, a: Act)
    ensures Do(load, m, p, a).0 == Do(load, m, q, a).0
  {
    hide StoreLoaded, Tracking.TrackPages, Tracking.UntrackPages;
    if a.Fetch? {
      var answer := load(a.id, a.offset, a.length);
      if answer.Some? && |answer.value.0| < 0x1_0000_0000_0000_0000 {
        StoreBlind(m, p, q, a.addr, answer.value.0, answer.value.1, a.id, a.offset, a.sizeAddr);
      }
    } else if a.Track? {
      TrackPagesBlind(m, p, q, a.start, a.size, a.id, a.offset);
    } else if a.Untrack? {
      UntrackPagesBlind(m, p, q, a.start, a.size);
    }
  }

  lemma {:induction false} DoAllBlind(load: Loader, full: Id -> seq<byte>, m: Mem, p: PageMap, q: PageMap,
                                      acts: seq<Act>)
    ensures DoAll(load, m, p, acts).0 == DoAll(load, m, q, acts).0
    ensures AllFine(load, full, m, p, acts) == AllFine(load, full, m, q, acts)
    decreases |acts|
  {
    hide Do, Fine;
    if acts != [] {
      DoBlind(load, m, p, q, acts[0]);
      var (m', p') := Do(load, m, p, acts[0]);
      DoAllBlind(load, full, m', p', Do(load, m, q, acts[0]).1, acts[1..]);
    }
  }

  // ---- Running keeps the page map right ----

  lemma {:induction false} AskKeepsGood(load: Loader, env: Env, full: Id -> seq<byte>, acts: Acts, k: nat, s: State,
                                        pages: PageMap)
    requires Stable(load, full) && CallsAct(env, load, full, acts) && Good(full, s.mem, pages) && k <= |env.syscalls|
    ensures !AskSyscalls(env, k, s).Unprocessed?
    ensures Good(full, AskSyscalls(env, k, s).mem, AskPages(load, env, acts, k, s, pages))
    decreases |env.syscalls| - k
  {
    hide Good, Stable, DoAll, AllFine;
    if k < |env.syscalls| {
      if env.syscalls[k](s.regs, s.mem, s.cycles).Unprocessed? {
        AskKeepsGood(load, env, full, acts, k + 1, s, pages);
      } else {
        var list := acts(k, s.regs, s.mem, s.cycles);
        DoAllBlind(load, full, s.mem, map[], pages, list);
        HistoryKeepsGood(load, full, s.mem, pages, list);
      }
    }
  }

  /** Instructions other than system calls leave the page map as it is, and right. */
  lemma ExecuteKeepsGood(env: Env, full: Id -> seq<byte>, pages: PageMap, i: Inst, s: State)
    requires Good(full, s.mem, pages) && (i.op.ECALL? ==> s.regs[A7] == 93)
    ensures Good(full, Execute(env, i, s).st.mem, pages)
  {
    hide Good, Value, FusedRegs, Upd, AskSyscalls;
    if AccessesMemory(i.op) {
      MemoryKeepsGood(env, full, pages, i, s);
    }
  }

  lemma MemoryKeepsGood(env: Env, full: Id -> seq<byte>, pages: PageMap, i: Inst, s: State)
    requires AccessesMemory(i.op) && Good(full, s.mem, pages)
    ensures Good(full, ExecMemory(env, i, s).st.mem, pages)
  {
    hide Store, Good, Load, Upd, SignExtend;
    forall addr: u64, v: u64, n: nat
      ensures Good(full, StoreWord(s.mem, addr, v, n).0, pages)
      ensures Good(full, StoreWord(s.mem, addr, v, n).0.(lr := 0xFFFF_FFFF_FFFF_FFFF), pages)
    {
      StoreKeepsGood(full, s.mem, pages, addr, ToLe(v, n));
      ReservationKeepsGood(full, StoreWord(s.mem, addr, v, n).0, pages, 0xFFFF_FFFF_FFFF_FFFF);
    }
    ReservationKeepsGood(full, s.mem, pages, s.regs[i.rs1]);
  }

  lemma CallMemory(env: Env, i: Inst, s: State)
    requires i.op.ECALL? && s.regs[A7] != 93 && !AskSyscalls(env, 0, s).Unprocessed?
    ensures Execute(env, i, s).st.mem == AskSyscalls(env, 0, s).mem
  {
    hide AskSyscalls;
    assert Execute(env, i, s) == EnvironmentCall(env, i, s);
  }

  lemma StepKeepsGood(load: Loader, cfg: Config, full: Id -> seq<byte>, acts: Acts, s: State, pages: PageMap)
    requires Stable(load, full) && CallsAct(cfg.env, load, full, acts) && Good(full, s.mem, pages)
    ensures Good(full, Step(cfg, s).st.mem, PagesStep(load, cfg, acts, s, pages))
  {
    hide Good, Stable, CallsAct, Execute, DecodeAny, AskPages, AskSyscalls;
    if DecodeAny(cfg.isa, cfg.mop, s.mem, s.pc).Ok? {
      var i := DecodeAny(cfg.isa, cfg.mop, s.mem, s.pc).value;
      var t := Run.AddCycles(s, cfg.cost(i)).st;
      if i.op.ECALL? && t.regs[A7] != 93 {
        AskKeepsGood(load, cfg.env, full, acts, 0, t, pages);
        CallMemory(cfg.env, i, t);
      } else {
        ExecuteKeepsGood(cfg.env, full, pages, i, t);
      }
    }
  }

  /** At every point of a run the page map is right about the memory. */
  lemma {:induction false} RunKeepsGood(load: Loader, cfg: Config, full: Id -> seq<byte>, acts: Acts, s: State,
                                        pages: PageMap, n: nat)
    requires Stable(load, full) && CallsAct(cfg.env, load, full, acts) && Good(full, s.mem, pages)
    ensures Good(full, RunN(cfg, s, n).st.mem, PagesAfter(load, cfg, acts, s, pages, n))
    decreases n
  {
    hide Good, Stable, CallsAct, Step, PagesStep;
    if s.running && n > 0 {
      StepKeepsGood(load, cfg, full, acts, s, pages);
      if Step(cfg, s).err.None? {
        RunKeepsGood(load, cfg, full, acts, Step(cfg, s).st, PagesStep(load, cfg, acts, s, pages), n - 1);
      }
    }
  }

  lemma {:induction false} RunKeepsSize(cfg: Config, s: State, n: nat)
    requires KeepsCode(cfg.env)
    ensures |RunN(cfg, s, n).st.mem.flags| == |s.mem.flags|
    decreases n
  {
    hide KeepsCode, Execute, DecodeAny;
    if s.running && n > 0 && DecodeAny(cfg.isa, cfg.mop, s.mem, s.pc).Ok? {
      var i := DecodeAny(cfg.isa, cfg.mop, s.mem, s.pc).value;
      ExecuteKeepsCode(cfg.env, i, Run.AddCycles(s, cfg.cost(i)).st);
      if Step(cfg, s).err.None? {
        RunKeepsSize(cfg, Step(cfg, s).st, n - 1);
      }
    }
  }

  // ---- Raising the limit ----

  lemma {:induction false} AskLimit(env: Env, k: nat, s: State, limit: u64)
    requires k <= |env.syscalls|
    ensures AskSyscalls(env, k, s.(maxCycles := limit)) == AskSyscalls(env, k, s)
    decreases |env.syscalls| - k
  {
    if k < |env.syscalls| {
      AskLimit(env, k + 1, s, limit);
    }
  }

  /** System calls report failures of their own, but leave the cycle limit to the machine. */
  ghost predicate LeavesLimit(env: Env) {
    forall k, regs: RegFile, m: Mem, c: u64 ::
      0 <= k < |env.syscalls| && env.syscalls[k](regs, m, c).SysFailed? ==>
        env.syscalls[k](regs, m, c).error != CyclesExceeded
  }

  lemma {:induction false} AskNeverExceeds(env: Env, k: nat, s: State)
    requires LeavesLimit(env) && k <= |env.syscalls|
    ensures AskSyscalls(env, k, s).SysFailed? ==> AskSyscalls(env, k, s).error != CyclesExceeded
    decreases |env.syscalls| - k
  {
    if k < |env.syscalls| {
      AskNeverExceeds(env, k + 1, s);
    }
  }

  /** What succeeds, or exceeds the limit, is a success under a limit that suffices. */
  lemma ExecuteUnderLimit(env: Env, i: Inst, s: State, limit: u64)
    requires LeavesLimit(env) && s.maxCycles <= limit
    requires var o := Execute(env, i, s); o.err.None? || (o.err == Some(CyclesExceeded) && o.st.cycles <= limit)
    ensures Execute(env, i, s.(maxCycles := limit)) == Outcome(Execute(env, i, s).st.(maxCycles := limit), None)
    ensures Execute(env, i, s).err.Some? ==> Execute(env, i, s).st.running == s.running
  {
    if i.op.ECALL? {
      hide EnvironmentCall;
      assert Execute(env, i, s) == EnvironmentCall(env, i, s);
      assert Execute(env, i, s.(maxCycles := limit)) == EnvironmentCall(env, i, s.(maxCycles := limit));
      CallUnderLimit(env, i, s, limit);
    } else {
      hide Execute;
      assert Recount(s, s.cycles, limit) == s.(maxCycles := limit);
      CountersUnread(env, i, s, s.cycles, limit);
      OtherErrors(env, i, s);
    }
  }

  lemma CallUnderLimit(env: Env, i: Inst, s: State, limit: u64)
    requires LeavesLimit(env) && s.maxCycles <= limit && i.op.ECALL?
    requires var o := EnvironmentCall(env, i, s); o.err.None? || (o.err == Some(CyclesExceeded) && o.st.cycles <= limit)
    ensures EnvironmentCall(env, i, s.(maxCycles := limit))
         == Outcome(EnvironmentCall(env, i, s).st.(maxCycles := limit), None)
    ensures EnvironmentCall(env, i, s).err.Some? ==> EnvironmentCall(env, i, s).st.running == s.running
  {
    AskLimit(env, 0, s, limit);
    AskNeverExceeds(env, 0, s);
  }

  lemma OtherErrors(env: Env, i: Inst, s: State)
    requires !i.op.ECALL?
    ensures Execute(env, i, s).err != Some(CyclesExceeded)
  {
    hide Value, FusedRegs, Upd, ToLe, LeWord, Put;
    if AccessesMemory(i.op) {
      forall addr: u64, v: u64, n: nat
        ensures StoreWord(s.mem, addr, v, n).1 != Fail(CyclesExceeded)
      {
        StoreErrors(s.mem, addr, ToLe(v, n));
      }
      MemoryErrors(env, i, s);
    }
  }

  lemma StoreErrors(m: Mem, addr: u64, bytes: seq<byte>)
    ensures Store(m, addr, bytes).1 != Fail(CyclesExceeded)
  {
    hide Put;
    if bytes != [] && CheckNoOverflow(addr, |bytes|, |m.data|).Pass? {
      PermissionErrors(m, addr / 4096, (addr + |bytes| - 1) / 4096, false);
    }
  }

  lemma MemoryErrors(env: Env, i: Inst, s: State)
    requires AccessesMemory(i.op)
    requires forall addr: u64, v: u64, n: nat :: StoreWord(s.mem, addr, v, n).1 != Fail(CyclesExceeded)
    ensures ExecMemory(env, i, s).err != Some(CyclesExceeded)
  {
    hide StoreWord, Upd, SignExtend;
  }

  function WithLimit(s: State, limit: u64): State {
    s.(maxCycles := limit)
  }

  lemma StepUnderLimit(cfg: Config, s: State, limit: u64)
    requires LeavesLimit(cfg.env) && s.maxCycles <= limit && Step(cfg, s).err.None?
    ensures Step(cfg, WithLimit(s, limit)) == Outcome(WithLimit(Step(cfg, s).st, limit), None)
  {
    hide Execute, DecodeAny;
    var i := DecodeAny(cfg.isa, cfg.mop, s.mem, s.pc).value;
    ExecuteUnderLimit(cfg.env, i, Run.AddCycles(s, cfg.cost(i)).st, limit);
  }

  /** A step that exceeds the limit did nothing, or was a system call that is otherwise complete. */
  lemma StepAtLimit(cfg: Config, s: State, limit: u64)
    requires LeavesLimit(cfg.env) && s.maxCycles <= limit && s.running
    requires Step(cfg, s).err == Some(CyclesExceeded) && Step(cfg, s).st.cycles <= limit
    ensures Step(cfg, s).st.running
    ensures Step(cfg, s).st == s || Step(cfg, WithLimit(s, limit)) == Outcome(WithLimit(Step(cfg, s).st, limit), None)
  {
    hide Execute, DecodeAny;
    DecodeErrors(cfg.isa, cfg.mop, s.mem, s.pc);
    var i := DecodeAny(cfg.isa, cfg.mop, s.mem, s.pc).value;
    var o := Run.AddCycles(s, cfg.cost(i));
    if o.err.None? {
      ExecuteUnderLimit(cfg.env, i, o.st, limit);
    }
  }

  /** Where a run stops at its limit, the run with a higher limit passes by. */
  lemma {:induction false} PassesLimit(cfg: Config, s: State, n: nat, limit: u64) returns (k: nat)
    requires LeavesLimit(cfg.env) && s.maxCycles <= limit
    requires RunN(cfg, s, n).Stopped? && RunN(cfg, s, n).error == CyclesExceeded && RunN(cfg, s, n).st.cycles <= limit
    ensures RunN(cfg, WithLimit(s, limit), k) == Running(WithLimit(RunN(cfg, s, n).st, limit))
    decreases n
  {
    hide Step;
    var t := Step(cfg, s).st;
    if Step(cfg, s).err.Some? {
      StepAtLimit(cfg, s, limit);
      if t == s {
        k := 0;
      } else {
        k := 1;
        assert RunN(cfg, WithLimit(s, limit), 1) == RunN(cfg, WithLimit(t, limit), 0);
      }
    } else {
      StepUnderLimit(cfg, s, limit);
      LimitKept(cfg, s);
      k := PassesLimit(cfg, t, n - 1, limit);
      k := k + 1;
      assert RunN(cfg, WithLimit(s, limit), k) == RunN(cfg, WithLimit(t, limit), k - 1);
    }
  }

  lemma LimitKept(cfg: Config, s: State)
    ensures Step(cfg, s).st.maxCycles == s.maxCycles
  {
    hide Execute, DecodeAny;
    if DecodeAny(cfg.isa, cfg.mop, s.mem, s.pc).Ok? {
      var i := DecodeAny(cfg.isa, cfg.mop, s.mem, s.pc).value;
      ExecuteCycles(cfg.env, i, Run.AddCycles(s, cfg.cost(i)).st);
    }
  }

  // ---- Suspend, resume, run on ----

  /** Run to an end. System calls share the context with the machine: what they do to its page map is
      computed here beside the run. */
  method RunTracked(machine: M.DefaultMachine, context: Snapshot2Context, decoder: Decoder.DefaultDecoder, acts: Acts,
                    ghost full: Id -> seq<byte>)
    returns (r: Result<int>, ghost steps: nat)
    requires decoder.Valid() && decoder.Trusts(machine.memory) && machine.version >= 1
    requires KeepsCode(machine.env) && CallsAct(machine.env, context.source, full, acts)
    requires Stable(context.source, full) && context.Tracks(full, machine)
    requires forall i :: machine.cost(i) >= 1
    modifies machine, decoder.instructionsCache, context
    ensures M.Ended(machine.Cfg(decoder), old(machine.St()).(running := true), steps, r, machine.St())
    ensures context.pages == PagesAfter(context.source, machine.Cfg(decoder), acts, old(machine.St()).(running := true),
                                        old(context.pages), steps)
    ensures context.Tracks(full, machine)
  {
    hide Good, Stable, CallsAct, KeepsCode, Trusted, PagesAfter, RunN;
    var cfg := Config(decoder.isa, decoder.mop, machine.env, machine.cost);
    var start := machine.St().(running := true);
    var pages := context.pages;
    var fuel: nat := if machine.cycles <= machine.maxCycles then machine.maxCycles - machine.cycles + 1 else 1;
    context.pages := PagesAfter(context.source, cfg, acts, start, pages, fuel);
    r, steps := machine.RunWithDecoder(decoder);
    PagesSettle(context.source, cfg, acts, start, pages, steps, fuel);
    RunKeepsGood(context.source, cfg, full, acts, start, pages, steps);
  }

  /** Run until the limit stops the machine, snapshot it, resume on a new machine, raise the limit and
      run on: the new machine ends, in result and state, where the first would have ended had the
      limit been higher from the start. */
  method RunSuspendRun(from: M.DefaultMachine, c: Snapshot2Context, e: Decoder.DefaultDecoder,
                       to: M.DefaultMachine, d: Snapshot2Context, g: Decoder.DefaultDecoder,
                       limit: u64, acts: Acts, ghost full: Id -> seq<byte>)
    returns (first: Result<int>, second: Result<int>, ghost steps: nat)
    requires from != to && c != d && e.instructionsCache != g.instructionsCache
    requires e.Valid() && e.Trusts(from.memory) && g.Valid() && g.Entries() == EmptyCache()
    requires e.isa == g.isa && e.mop == g.mop && from.version == to.version >= 1
    requires from.env == to.env && from.cost == to.cost && from.exitCode == to.exitCode
    requires Stable(c.source, full) && d.source == c.source && c.Tracks(full, from)
    requires |to.memory.flags| == |from.memory.flags| && forall p :: 0 <= p < |to.memory.flags| ==> Fresh(to.memory, p)
    requires KeepsCode(from.env) && CallsAct(from.env, c.source, full, acts) && LeavesLimit(from.env)
    requires from.maxCycles <= limit && forall i :: from.cost(i) >= 1
    modifies from, e.instructionsCache, c, to, d, g.instructionsCache
    ensures first == Err(CyclesExceeded) && from.cycles <= limit ==>
              && M.Ended(from.Cfg(e), old(from.St()).(running := true, maxCycles := limit), steps, second, to.St())
              && d.Tracks(full, to)
  {
    hide RunN, Good, Trusted, KeepsCode, CallsAct, LeavesLimit, Stable, Fresh, PagesAfter;
    ghost var cfg, start := from.Cfg(e), from.St().(running := true);
    ghost var n, k, more;
    first, n := RunTracked(from, c, e, acts, full);
    steps, second := 0, first;
    if first != Err(CyclesExceeded) || from.cycles > limit {
      return;
    }
    RunKeepsSize(cfg, start, n);
    k := PassesLimit(cfg, start, n, limit);
    StillRunning(cfg, WithLimit(start, limit), k);
    ExitKept(cfg, start, n);
    var snapshot, again := SuspendAndResume(from, c, to, d, full);
    to.maxCycles := limit;
    EmptyIsTrusted(g.isa, to.memory);
    second, more := RunTracked(to, d, g, acts, full);
    RunSplit(cfg, WithLimit(start, limit), k, more);
    steps := k + more;
  }

  // ---- A system call that loads data ----

  /** `store_bytes` as a system call, with its arguments in A0 and the four registers after it. */
  function DataCall(load: Loader, number: u64): (RegFile, Mem, u64) -> SysResult {
    (regs: RegFile, m: Mem, c: u64) =>
      if regs[A7] != number then Unprocessed else
      match History.StoreBytes(load, m, map[], regs[A0], regs[A0 + 1], regs[A0 + 2], regs[A0 + 3], regs[A0 + 4])
      case (m', _, Err(e)) => SysFailed(regs, m', e)
      case (m', _, Ok(_)) => Processed(regs, m', 0)
  }

  function DataActs(): Acts {
    (k: nat, regs: RegFile, m: Mem, c: u64) =>
      [AnyAct.Fetch(regs[A0], regs[A0 + 1], regs[A0 + 2], regs[A0 + 3], regs[A0 + 4])]
  }

  /** Such a call meets everything that is asked of system calls here. */
  lemma DataCallFits(load: Loader, full: Id -> seq<byte>, number: u64, amo: Env)
    ensures var env := amo.(syscalls := [DataCall(load, number)]);
            KeepsCode(env) && CallsAct(env, load, full, DataActs()) && LeavesLimit(env)
  {
    hide History.StoreBytes, SameCode;
    var env := amo.(syscalls := [DataCall(load, number)]);
    forall k, regs: RegFile, m: Mem, c: u64 | 0 <= k < |env.syscalls| && !env.syscalls[k](regs, m, c).Unprocessed?
      ensures SameCode(m, env.syscalls[k](regs, m, c).mem)
      ensures AllFine(load, full, m, map[], DataActs()(k, regs, m, c))
      ensures env.syscalls[k](regs, m, c).mem == DoAll(load, m, map[], DataActs()(k, regs, m, c)).0
      ensures env.syscalls[k](regs, m, c).SysFailed? ==> env.syscalls[k](regs, m, c).error != CyclesExceeded
    {
      FetchKeepsCode(load, m, map[], regs[A0], regs[A0 + 1], regs[A0 + 2], regs[A0 + 3], regs[A0 + 4]);
    }
  }

  lemma FetchKeepsCode(load: Loader, m: Mem, pages: PageMap, addr: u64, id: Id, offset: u64, length: u64, sizeAddr: u64)
    ensures var (m', _, r) := History.StoreBytes(load, m, pages, addr, id, offset, length, sizeAddr);
            SameCode(m, m') && r != Err(CyclesExceeded)
  {
    hide SameCode, StoreLoaded;
    SameCodeSelf(m);
    var answer := load(id, offset, length);
    if answer.Some? && |answer.value.0| < 0x1_0000_0000_0000_0000 {
      StoreLoadedKeepsCode(m, pages, addr, answer.value.0, answer.value.1, id, offset, sizeAddr);
    }
  }

  lemma StoreLoadedKeepsCode(m: Mem, pages: PageMap, addr: u64, data: seq<byte>, fullLength: u64, id: Id, offset: u64,
                             sizeAddr: u64)
    requires |data| < 0x1_0000_0000_0000_0000
    ensures var (m', _, s) := StoreLoaded(m, pages, addr, data, fullLength, id, offset, sizeAddr);
            SameCode(m, m') && s != Fail(CyclesExceeded)
  {
    hide SameCode, Store, TrackRange, UntrackRange, RoundUp, ToLe;
    var (m1, s1) := StoreWord(m, sizeAddr, fullLength, 8);
    StoreSameCode(m, sizeAddr, ToLe(fullLength, 8));
    StoreErrors(m, sizeAddr, ToLe(fullLength, 8));
    var (m2, pages2, s2) := Tracking.UntrackPages(m1, pages, addr, |data|);
    if data != [] {
      UntrackKeepsCode(m1, pages, addr / 4096, Minus(Plus(addr, |data|), 1) / 4096);
    } else {
      SameCodeSelf(m1);
    }
    SameCodeTransitive(m, m1, m2);
    var (m3, s3) := Store(m2, addr, data);
    StoreSameCode(m2, addr, data);
    StoreErrors(m2, addr, data);
    SameCodeTransitive(m, m2, m3);
    var (m4, _, s4) := Tracking.TrackPages(m3, pages2, addr, |data|, id, offset);
    var skipped := Minus(RoundUp(addr), addr);
    if skipped <= |data| {
      TrackKeepsCode(m3, pages2, RoundUp(addr) / 4096, (|data| - skipped) / 4096, id, Plus(offset, skipped));
    } else {
      SameCodeSelf(m3);
    }
    SameCodeTransitive(m, m3, m4);
  }

  lemma StoreSameCode(m: Mem, addr: u64, bytes: seq<byte>)
    ensures SameCode(m, Store(m, addr, bytes).0)
  {
    hide Store, CodeKept;
    StoreKeepsCode(m, addr, bytes);
  }

  lemma SameCodeTransitive(a: Mem, b: Mem, c: Mem)
    requires SameCode(a, b) && SameCode(b, c)
    ensures SameCode(a, c)
  {
  }

  lemma {:induction false} UntrackKeepsCode(m: Mem, pages: PageMap, page: u64, last: nat)
    ensures SameCode(m, UntrackRange(m, pages, page, last).0)
    ensures UntrackRange(m, pages, page, last).2 != Fail(CyclesExceeded)
    decreases last + 1 - page
  {
    hide SameCode;
    SameCodeSelf(m);
    var m' := SetFlag(m, page, DIRTY).0;
    if page <= last && SetFlag(m, page, DIRTY).1.Pass? {
      UntrackKeepsCode(m', pages - {page}, page + 1, last);
      assert SameCode(m, m') by { DirtyIsNoCode(m, m'); }
      SameCodeTransitive(m, m', UntrackRange(m, pages, page, last).0);
    }
  }

  lemma {:induction false} TrackKeepsCode(m: Mem, pages: PageMap, page: u64, n: nat, id: Id, offset: u64)
    ensures SameCode(m, TrackRange(m, pages, page, n, id, offset).0)
    ensures TrackRange(m, pages, page, n, id, offset).2 != Fail(CyclesExceeded)
    decreases n
  {
    hide SameCode;
    SameCodeSelf(m);
    var m' := ClearFlag(m, page, DIRTY).0;
    if n > 0 && ClearFlag(m, page, DIRTY).1.Pass? {
      TrackKeepsCode(m', pages[page := Tracked(id, offset, m'.flags[page])], page + 1, n - 1, id, Plus(offset, 4096));
      assert SameCode(m, m') by { DirtyIsNoCode(m, m'); }
      SameCodeTransitive(m, m', TrackRange(m, pages, page, n, id, offset).0);
    }
  }

  lemma DirtyIsNoCode(m: Mem, m': Mem)
    requires m'.data == m.data && |m'.flags| == |m.flags|
    requires forall p :: 0 <= p < |m.flags| ==> m'.flags[p].executable == m.flags[p].executable
    ensures SameCode(m, m')
  {
  }

  /** A run that has not halted has not set an exit code. */
  lemma {:induction false} ExitKept(cfg: Config, s: State, n: nat)
    requires s.running && RunN(cfg, s, n).Stopped?
    ensures RunN(cfg, s, n).st.exitCode == s.exitCode
    decreases n
  {
    hide Execute, DecodeAny;
    if n > 0 && DecodeAny(cfg.isa, cfg.mop, s.mem, s.pc).Ok? {
      var i := DecodeAny(cfg.isa, cfg.mop, s.mem, s.pc).value;
      ExitOnlyWhenHalting(cfg.env, i, Run.AddCycles(s, cfg.cost(i)).st);
      if Step(cfg, s).err.None? && Step(cfg, s).st.running {
        ExitKept(cfg, Step(cfg, s).st, n - 1);
      }
    }
  }

  lemma ExitOnlyWhenHalting(env: Env, i: Inst, s: State)
    ensures Execute(env, i, s).st.running ==> Execute(env, i, s).st.exitCode == s.exitCode
    ensures Execute(env, i, s).err.Some? ==> Execute(env, i, s).st.exitCode == s.exitCode
  {
    hide StoreWord, Load, Value, FusedRegs, Upd, SignExtend;
  }
}
