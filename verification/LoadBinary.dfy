/** Loading a program: from program headers to pages, and from pages to the page map of a snapshot. */
module LoadBinary {
  import opened Words
  import opened Outcomes
  import opened Pages
  import opened Loading
  import opened CodeFreeze
  import opened Tracking
  import opened History
  import opened Snapshot
  import opened Resume
  import M = Machine
  import opened SnapshotContext

  /** The fields of a `PT_LOAD` program header that the loader reads. */
  datatype ProgramHeader = ProgramHeader(vaddr: u64, memsz: u64, offset: u64, filesz: u64, flags: bv32)

  datatype LoadingAction = LoadingAction(
    addr: u64, size: u64, flags: PageFlags, sourceStart: u64, sourceEnd: u64, offsetFromAddr: u64)

  // ---- From a program header to an action ----

  /** The loop body of `parse_elf`. */
  function ParseHeader(h: ProgramHeader, programLength: nat, allowFreezeWritable: bool): Result<LoadingAction> {
    var alignedStart := RoundDown(h.vaddr);
    var padding := Minus(h.vaddr, alignedStart);
    var size := RoundUp(Plus(h.memsz, padding));
    var sliceEnd := Plus(h.offset, h.filesz);
    if h.offset > sliceEnd || sliceEnd > programLength then Err(ElfSegmentAddrOrSizeError(h.vaddr))
    else
      match ConvertFlags(h.flags, allowFreezeWritable, h.vaddr)
      case Err(e) => Err(e)
      case Ok(flags) => Ok(LoadingAction(alignedStart, size, flags, h.offset, sliceEnd, padding))
  }

  ghost predicate WellFormed(a: LoadingAction, program: seq<byte>) {
    a.sourceStart <= a.sourceEnd <= |program|
  }

  function Source(a: LoadingAction, program: seq<byte>): seq<byte>
    requires WellFormed(a, program)
  {
    program[a.sourceStart..a.sourceEnd]
  }

  /** The action's pages hold the header's addresses, in the fewest whole pages. */
  ghost predicate Covers(a: LoadingAction, h: ProgramHeader) {
    h.vaddr + h.memsz <= a.addr + a.size < h.vaddr + h.memsz + 4096
  }

  /** The action's slice of the file is exactly the header's. */
  ghost predicate OwnSlice(a: LoadingAction, h: ProgramHeader, program: seq<byte>) {
    && WellFormed(a, program) && h.offset + h.filesz <= |program|
    && Source(a, program) == program[h.offset..h.offset + h.filesz]
  }

  /** An action is aligned, its padding leads to the header's address, and its slice of the file is
      exactly the header's. It covers the header exactly when the padded size rounds up below 2^64:
      beyond that the source's sum or its rounding wraps, and the pages are too few. */
  lemma ActionCoversHeader(h: ProgramHeader, program: seq<byte>, allowFreezeWritable: bool)
    requires ParseHeader(h, |program|, allowFreezeWritable).Ok?
    ensures var a := ParseHeader(h, |program|, allowFreezeWritable).value;
            && OwnSlice(a, h, program)
            && a.addr % 4096 == 0 && a.size % 4096 == 0
            && a.addr + a.offsetFromAddr == h.vaddr && a.offsetFromAddr < 4096
            && SegmentFlags(a.flags)
            && (Covers(a, h) <==> h.memsz + h.vaddr % 4096 <= 0xFFFF_FFFF_FFFF_F000)
  {
    hide RoundUp, ConvertFlags;
    var padding := h.vaddr % 4096;
    assert Minus(h.vaddr, RoundDown(h.vaddr)) == padding;
    var padded := Plus(h.memsz, padding);
    PaddedSize(h.memsz, padding);
    if padded <= 0xFFFF_FFFF_FFFF_F000 {
      RoundUpExact(padded);
    } else {
      RoundUpWraps(padded);
    }
    SliceEnd(h.offset, h.filesz);
    assert (h.vaddr - padding) % 4096 == 0;
  }

  lemma PaddedSize(memsz: u64, padding: nat)
    requires padding < 4096
    ensures Plus(memsz, padding) == if memsz + padding < 0x1_0000_0000_0000_0000 then memsz + padding
                                    else memsz + padding - 0x1_0000_0000_0000_0000
  {
  }

  lemma RoundUpWraps(x: u64)
    requires x > 0xFFFF_FFFF_FFFF_F000
    ensures RoundUp(x) == 0
  {
    var r: int := x - 0xFFFF_FFFF_FFFF_F000;
    assert x == 4096 * 0xF_FFFF_FFFF_FFFF + r;
    assert x % 4096 == r && (4096 - r) % 4096 == 4096 - r;
  }

  /** A wrapped end would come before the start. */
  lemma SliceEnd(offset: u64, filesz: u64)
    ensures Plus(offset, filesz) >= offset ==> Plus(offset, filesz) == offset + filesz
  {
  }

  // ---- Loading ----

  function LoadAction(m: Mem, program: seq<byte>, a: LoadingAction): (Mem, Status)
    requires WellFormed(a, program)
  {
    InitPages(m, a.addr, a.size, a.flags, Some(Source(a, program)), a.offsetFromAddr)
  }

  ghost predicate AllWellFormed(actions: seq<LoadingAction>, program: seq<byte>) {
    forall k :: 0 <= k < |actions| ==> WellFormed(actions[k], program)
  }

  /** The loop of `load_binary_inner`: the memory, and how many bytes were loaded. */
  function LoadActions(m: Mem, program: seq<byte>, actions: seq<LoadingAction>, bytes: u64): (Mem, Result<u64>)
    requires AllWellFormed(actions, program)
    decreases |actions|
  {
    if actions == [] then (m, Ok(bytes))
    else
      match LoadAction(m, program, actions[0])
      case (m', Fail(e)) => (m', Err(e))
      case (m', Pass) =>
        var more := bytes + (actions[0].sourceEnd - actions[0].sourceStart);
        if more >= 0x1_0000_0000_0000_0000 then (m', Err(Unexpected))
        else LoadActions(m', program, actions[1..], more)
  }

  /** `load_binary_inner` for VERSION1 and later. */
  method LoadBinary(machine: M.DefaultMachine, program: seq<byte>, actions: seq<LoadingAction>, entry: u64,
                    updatePc: bool)
    returns (r: Result<u64>)
    requires AllWellFormed(actions, program)
    modifies machine
    ensures (machine.memory, r) == LoadActions(old(machine.memory), program, actions, 0)
    ensures var pc := if r.Ok? && updatePc then entry else old(machine.pc);
            machine.St() == old(machine.St()).(mem := machine.memory, pc := pc)
  {
    hide InitPages;
    var bytes: u64 := 0;
    for k := 0 to |actions|
      invariant LoadActions(old(machine.memory), program, actions, 0)
                == LoadActions(machine.memory, program, actions[k..], bytes)
      invariant machine.St() == old(machine.St()).(mem := machine.memory)
    {
      assert actions[k..][1..] == actions[k + 1..];
      var (m, status) := LoadAction(machine.memory, program, actions[k]);
      machine.memory := m;
      if status.Fail? {
        return Err(status.error);
      }
      var more: int := bytes + (actions[k].sourceEnd - actions[k].sourceStart);
      if more >= 0x1_0000_0000_0000_0000 {
        return Err(Unexpected);
      }
      bytes := more;
    }
    if updatePc {
      machine.pc, machine.nextPc := entry, entry;
    }
    return Ok(bytes);
  }

  // ---- What a loaded program looks like ----

  ghost predicate InAction(a: LoadingAction, p: nat) {
    a.addr / 4096 <= p < a.addr / 4096 + a.size / 4096
  }

  ghost predicate InSome(actions: seq<LoadingAction>, p: nat) {
    exists k :: 0 <= k < |actions| && InAction(actions[k], p)
  }

  ghost predicate PageDisjoint(actions: seq<LoadingAction>) {
    forall i, j, p: nat :: 0 <= i < j < |actions| && InAction(actions[i], p) ==> !InAction(actions[j], p)
  }

  /** Page `p` holds its part of the segment, is dirty and carries the segment's flags. */
  ghost predicate PageLoaded(m: Mem, m': Mem, program: seq<byte>, a: LoadingAction, p: nat)
    requires p < |m.flags| == |m'.flags| && WellFormed(a, program) && a.addr <= 4096 * p
  {
    && m'.flags[p] == m.flags[p].Or(a.flags).Or(DIRTY)
    && forall i :: 4096 * p <= i < 4096 * p + 4096 ==>
         m'.data[i] == SegmentByte(Some(Source(a, program)), a.offsetFromAddr, i - a.addr)
  }

  lemma ActionExact(m: Mem, program: seq<byte>, a: LoadingAction)
    requires WellFormed(a, program) && LoadAction(m, program, a).1.Pass?
    ensures var m' := LoadAction(m, program, a).0;
            && |m'.flags| == |m.flags| && m'.lr == m.lr
            && a.addr % 4096 == 0 && a.size % 4096 == 0 && a.addr + a.size <= |m.data| && a.offsetFromAddr <= a.size
            && (forall p: nat :: InAction(a, p) ==> p < |m.flags| && a.addr <= 4096 * p && PageLoaded(m, m', program,
                a, p))
            && (forall p: nat :: p < |m.flags| && !InAction(a, p) ==> SameOnPage(m', m, p))
  {
    hide InitPages;
    var source := Some(Source(a, program));
    InitPagesSucceeds(m, a.addr, a.size, a.flags, source, a.offsetFromAddr);
    InitPagesExact(m, a.addr, a.size, a.flags, source, a.offsetFromAddr);
    var m' := LoadAction(m, program, a).0;
    forall p: nat | p < |m.flags| && !InAction(a, p)
      ensures SameOnPage(m', m, p)
    {
      assert PageBytes(m', p) == PageBytes(m, p);
    }
  }

  lemma LoadedStays(m: Mem, m1: Mem, m2: Mem, program: seq<byte>, a: LoadingAction, p: nat)
    requires p < |m.flags| == |m1.flags| == |m2.flags| && WellFormed(a, program) && a.addr <= 4096 * p
    requires PageLoaded(m, m1, program, a, p) && SameOnPage(m2, m1, p)
    ensures PageLoaded(m, m2, program, a, p)
  {
    forall i | 4096 * p <= i < 4096 * p + 4096
      ensures m2.data[i] == m1.data[i]
    {
      assert PageBytes(m2, p)[i - 4096 * p] == PageBytes(m1, p)[i - 4096 * p];
    }
  }

  lemma LoadedFromLater(m: Mem, m1: Mem, m2: Mem, program: seq<byte>, a: LoadingAction, p: nat)
    requires p < |m.flags| == |m1.flags| == |m2.flags| && WellFormed(a, program) && a.addr <= 4096 * p
    requires SameOnPage(m1, m, p) && PageLoaded(m1, m2, program, a, p)
    ensures PageLoaded(m, m2, program, a, p)
  {
  }

  /** When all actions succeed on disjoint pages, every page of every action holds exactly its part
      of that segment, and every other page is untouched. */
  lemma {:induction false} LoadExact(m: Mem, program: seq<byte>, actions: seq<LoadingAction>, bytes: u64)
    requires AllWellFormed(actions, program) && PageDisjoint(actions)
    requires LoadActions(m, program, actions, bytes).1.Ok?
    ensures var m' := LoadActions(m, program, actions, bytes).0;
            && |m'.flags| == |m.flags| && m'.lr == m.lr
            && (forall k, p: nat :: 0 <= k < |actions| && InAction(actions[k], p) ==>
                  p < |m.flags| && actions[k].addr <= 4096 * p && PageLoaded(m, m', program, actions[k], p))
            && (forall p: nat :: p < |m.flags| && !InSome(actions, p) ==> SameOnPage(m', m, p))
    decreases |actions|
  {
    hide LoadAction, PageLoaded, SameOnPage, InAction;
    if actions == [] {
      SameSelf(m);
    } else {
      var a, rest := actions[0], actions[1..];
      ActionExact(m, program, a);
      var m1 := LoadAction(m, program, a).0;
      var more := bytes + (a.sourceEnd - a.sourceStart);
      LoadExact(m1, program, rest, more);
      var m' := LoadActions(m1, program, rest, more).0;
      forall k, p: nat | 0 <= k < |actions| && InAction(actions[k], p)
        ensures p < |m.flags| && actions[k].addr <= 4096 * p && PageLoaded(m, m', program, actions[k], p)
      {
        if k == 0 {
          NotInRest(actions, p);
          LoadedStays(m, m1, m', program, a, p);
        } else {
          assert actions[k] == rest[k - 1];
          assert !InAction(a, p);
          LoadedFromLater(m, m1, m', program, actions[k], p);
        }
      }
      forall p: nat | p < |m.flags| && !InSome(actions, p)
        ensures SameOnPage(m', m, p)
      {
        RestInSome(actions, p);
        SameTwice(m, m1, m', p);
      }
    }
  }

  lemma NotInRest(actions: seq<LoadingAction>, p: nat)
    requires actions != [] && PageDisjoint(actions) && InAction(actions[0], p)
    ensures !InSome(actions[1..], p)
  {
  }

  lemma RestInSome(actions: seq<LoadingAction>, p: nat)
    requires actions != [] && !InSome(actions, p)
    ensures !InAction(actions[0], p) && !InSome(actions[1..], p)
  {
  }

  lemma SameSelf(m: Mem)
    ensures forall p: nat :: p < |m.flags| ==> SameOnPage(m, m, p)
  {
  }

  lemma SameTwice(m: Mem, m1: Mem, m2: Mem, p: nat)
    requires p < |m.flags| == |m1.flags| == |m2.flags| && SameOnPage(m1, m, p) && SameOnPage(m2, m1, p)
    ensures SameOnPage(m2, m, p)
  {
  }

  /** A program loaded with the flags of its headers leaves every executable page freezed, and keeps
      the code that was there before. */
  lemma {:induction false} LoadedCodeIsFreezed(m: Mem, program: seq<byte>, actions: seq<LoadingAction>, bytes: u64)
    requires AllWellFormed(actions, program) && ExecutableIsFreezed(m)
    requires forall k :: 0 <= k < |actions| ==> SegmentFlags(actions[k].flags)
    ensures ExecutableIsFreezed(LoadActions(m, program, actions, bytes).0)
    ensures CodeKept(m, LoadActions(m, program, actions, bytes).0)
    decreases |actions|
  {
    hide InitPages, ExecutableIsFreezed;
    if actions != [] {
      var a := actions[0];
      InitPagesKeepsCode(m, a.addr, a.size, a.flags, Some(Source(a, program)), a.offsetFromAddr);
      var m1 := LoadAction(m, program, a).0;
      var more := bytes + (a.sourceEnd - a.sourceStart);
      if LoadAction(m, program, a).1.Pass? && more < 0x1_0000_0000_0000_0000 {
        LoadedCodeIsFreezed(m1, program, actions[1..], more);
        CodeKeptTransitive(m, m1, LoadActions(m1, program, actions[1..], more).0);
      }
    }
  }

  // ---- Marking the program ----

  /** How much of the segment `mark_program` considers. */
  function MarkedLength(a: LoadingAction): nat
    requires a.sourceStart <= a.sourceEnd && a.offsetFromAddr <= a.size
  {
    Min(a.sourceEnd - a.sourceStart, a.size - a.offsetFromAddr)
  }

  /** `Snapshot2Context::init_pages` */
  function MarkAction(m: Mem, pages: PageMap, a: LoadingAction, id: Id, offset: u64): (Mem, PageMap, Status)
    requires a.sourceStart <= a.sourceEnd && a.offsetFromAddr <= a.size
  {
    TrackPages(m, pages, Plus(a.addr, a.offsetFromAddr), MarkedLength(a), id, Plus(offset, a.sourceStart))
  }

  ghost predicate Markable(actions: seq<LoadingAction>) {
    forall k :: 0 <= k < |actions| ==>
      actions[k].sourceStart <= actions[k].sourceEnd && actions[k].offsetFromAddr <= actions[k].size
  }

  function MarkActions(m: Mem, pages: PageMap, actions: seq<LoadingAction>, id: Id, offset: u64): (Mem, PageMap, Status)
    requires Markable(actions)
    decreases |actions|
  {
    if actions == [] then (m, pages, Pass)
    else
      match MarkAction(m, pages, actions[0], id, offset)
      case (m', pages', Fail(e)) => (m', pages', Fail(e))
      case (m', pages', Pass) => MarkActions(m', pages', actions[1..], id, offset)
  }

  method MarkProgram(c: Snapshot2Context, machine: M.DefaultMachine, actions: seq<LoadingAction>, id: Id, offset: u64)
    returns (s: Status)
    requires Markable(actions)
    modifies c, machine`memory
    ensures (machine.memory, c.pages, s) == MarkActions(old(machine.memory), old(c.pages), actions, id, offset)
  {
    hide TrackPages;
    for k := 0 to |actions|
      invariant MarkActions(old(machine.memory), old(c.pages), actions, id, offset)
             == MarkActions(machine.memory, c.pages, actions[k..], id, offset)
    {
      assert actions[k..][1..] == actions[k + 1..];
      var a := actions[k];
      s := c.TrackPages(machine, Plus(a.addr, a.offsetFromAddr), MarkedLength(a), id, Plus(offset, a.sourceStart));
      if s.Fail? {
        return;
      }
    }
    return Pass;
  }

  /** The program is the data source's content from `offset` on. */
  ghost predicate FromSource(full: Id -> seq<byte>, program: seq<byte>, id: Id, offset: nat) {
    offset + |program| <= |full(id)| < 0x1_0000_0000_0000_0000 && full(id)[offset..offset + |program|] == program
  }

  /** The marked part of the segment is in memory. */
  ghost predicate StillThere(full: Id -> seq<byte>, m: Mem, a: LoadingAction, id: Id, offset: nat)
    requires a.sourceStart <= a.sourceEnd && a.offsetFromAddr <= a.size
  {
    MarkedLength(a) > 0 ==>
      HoldsSource(full, m, a.addr + a.offsetFromAddr, MarkedLength(a), id, offset + a.sourceStart)
  }

  lemma LoadedIsThere(full: Id -> seq<byte>, m: Mem, m': Mem, program: seq<byte>, a: LoadingAction, id: Id, offset: nat)
    requires WellFormed(a, program) && FromSource(full, program, id, offset) && |m'.flags| == |m.flags|
    requires a.addr % 4096 == 0 && a.size % 4096 == 0 && a.addr + a.size <= |m.data| && a.offsetFromAddr <= a.size
    requires forall p: nat :: InAction(a, p) ==> p < |m.flags| && a.addr <= 4096 * p && PageLoaded(m, m', program, a, p)
    ensures StillThere(full, m', a, id, offset)
  {
    var start, n, at := a.addr + a.offsetFromAddr, MarkedLength(a), offset + a.sourceStart;
    if n > 0 {
      var have, want := m'.data[start..start + n], full(id)[at..at + n];
      forall k | 0 <= k < n
        ensures have[k] == want[k]
      {
        SourceByte(full, program, id, offset, a.sourceStart + k);
        assert InAction(a, (start + k) / 4096);
        assert PageLoaded(m, m', program, a, (start + k) / 4096);
      }
      assert have == want;
    }
  }

  lemma SourceByte(full: Id -> seq<byte>, program: seq<byte>, id: Id, offset: nat, k: nat)
    requires FromSource(full, program, id, offset) && k < |program|
    ensures full(id)[offset + k] == program[k]
  {
    assert full(id)[offset..offset + |program|][k] == full(id)[offset + k];
  }

  lemma MarkOne(full: Id -> seq<byte>, m: Mem, pages: PageMap, a: LoadingAction, id: Id, offset: u64,
                program: seq<byte>)
    requires WellFormed(a, program) && a.offsetFromAddr <= a.size && FromSource(full, program, id, offset)
    requires Good(full, m, pages) && StillThere(full, m, a, id, offset)
    ensures var (m', pages', _) := MarkAction(m, pages, a, id, offset);
            Good(full, m', pages') && m'.data == m.data && m'.lr == m.lr
  {
    hide Good, TrackPages;
    if MarkedLength(a) > 0 {
      assert Plus(a.addr, a.offsetFromAddr) == a.addr + a.offsetFromAddr;
      assert Plus(offset, a.sourceStart) == offset + a.sourceStart;
    }
    TrackPagesKeepsGood(full, m, pages, Plus(a.addr, a.offsetFromAddr), MarkedLength(a), id,
      Plus(offset, a.sourceStart));
  }

  /** Marking is sound while the marked pages still hold the program's bytes. */
  lemma {:induction false} MarkKeepsGood(full: Id -> seq<byte>, m: Mem, pages: PageMap, actions: seq<LoadingAction>,
                                         id: Id, offset: u64, program: seq<byte>)
    requires Markable(actions) && AllWellFormed(actions, program) && FromSource(full, program, id, offset)
    requires Good(full, m, pages)
    requires forall k :: 0 <= k < |actions| ==> StillThere(full, m, actions[k], id, offset)
    ensures var (m', pages', _) := MarkActions(m, pages, actions, id, offset); Good(full, m', pages')
    decreases |actions|
  {
    hide Good, MarkAction, FromSource;
    if actions != [] {
      MarkOne(full, m, pages, actions[0], id, offset, program);
      var (m1, pages1, _) := MarkAction(m, pages, actions[0], id, offset);
      forall k | 0 <= k < |actions| - 1
        ensures StillThere(full, m1, actions[1..][k], id, offset)
      {
        assert StillThere(full, m, actions[k + 1], id, offset);
      }
      MarkKeepsGood(full, m1, pages1, actions[1..], id, offset, program);
    }
  }

  lemma {:induction false} LoadKeepsGood(full: Id -> seq<byte>, m: Mem, pages: PageMap, program: seq<byte>,
                                         actions: seq<LoadingAction>, bytes: u64)
    requires AllWellFormed(actions, program) && Good(full, m, pages) && LoadActions(m, program, actions, bytes).1.Ok?
    ensures Good(full, LoadActions(m, program, actions, bytes).0, pages)
    ensures Markable(actions) && |LoadActions(m, program, actions, bytes).0.flags| == |m.flags|
    ensures forall k :: 0 <= k < |actions| ==>
              && actions[k].addr % 4096 == 0 && actions[k].size % 4096 == 0
              && actions[k].addr + actions[k].size <= |m.data|
    decreases |actions|
  {
    hide Good, InitPages, Loaded;
    if actions != [] {
      var a, source := actions[0], Some(Source(actions[0], program));
      InitPagesSucceeds(m, a.addr, a.size, a.flags, source, a.offsetFromAddr);
      InitPagesExact(m, a.addr, a.size, a.flags, source, a.offsetFromAddr);
      var m1 := LoadAction(m, program, a).0;
      LoadedKeepsGood(full, m, m1, pages, a.addr, a.size, a.flags, source, a.offsetFromAddr);
      SizeKept(m, m1, a.addr, a.size, a.flags, source, a.offsetFromAddr);
      LoadKeepsGood(full, m1, pages, program, actions[1..], bytes + (a.sourceEnd - a.sourceStart));
      forall k | 0 <= k < |actions|
        ensures actions[k].addr % 4096 == 0 && actions[k].size % 4096 == 0
                && actions[k].addr + actions[k].size <= |m.data|
        ensures actions[k].sourceStart <= actions[k].sourceEnd && actions[k].offsetFromAddr <= actions[k].size
      {
        if k > 0 {
          assert actions[k] == actions[1..][k - 1];
        }
      }
    }
  }

  lemma SizeKept(m: Mem, m': Mem, addr: nat, size: nat, flags: PageFlags, source: Option<seq<byte>>, offset: nat)
    requires Loaded(m, m', addr, size, flags, source, offset)
    ensures |m'.flags| == |m.flags| && |m'.data| == |m.data|
  {
  }

  /** A new machine, a program loaded on disjoint pages and marked, then any history of memory calls
      and data loads: the snapshot taken then and resumed on a new machine of the same size gives back
      the whole memory. */
  lemma SnapshotOfProgram(load: Loader, full: Id -> seq<byte>, blank: Mem, program: seq<byte>,
                          actions: seq<LoadingAction>,
                          id: Id, offset: u64, acts: seq<Act>, keys: seq<u64>, s: Snapshot2, other: Mem)
    requires Stable(load, full) && FromSource(full, program, id, offset)
    requires forall p :: 0 <= p < |blank.flags| ==> Fresh(blank, p)
    requires AllWellFormed(actions, program) && Markable(actions) && PageDisjoint(actions)
    requires LoadActions(blank, program, actions, 0).1.Ok?
    requires var m1 := LoadActions(blank, program, actions, 0).0;
             var (m2, pages2, _) := MarkActions(m1, map[], actions, id, offset);
             && AllFine(load, full, m2, pages2, acts)
             && var (m3, pages3) := DoAll(load, m2, pages2, acts);
                && Shot(m3, pages3, keys, s)
                && |other.flags| == |m3.flags| && forall p :: 0 <= p < |other.flags| ==> Fresh(other, p)
    ensures var m1 := LoadActions(blank, program, actions, 0).0;
            var (m2, pages2, _) := MarkActions(m1, map[], actions, id, offset);
            var (m3, pages3) := DoAll(load, m2, pages2, acts);
            ResumeAll(load, other, s) == (m3, CleanPart(m3, pages3), Pass)
  {
    hide Good, LoadActions, MarkActions, DoAll, AllFine, Shot, ResumeAll, StillThere, PageLoaded, InAction,
      FromSource, Stable, Fresh;
    var m1 := LoadActions(blank, program, actions, 0).0;
    NewIsGood(full, blank);
    LoadKeepsGood(full, blank, map[], program, actions, 0);
    LoadExact(blank, program, actions, 0);
    forall k | 0 <= k < |actions|
      ensures StillThere(full, m1, actions[k], id, offset)
    {
      LoadedIsThere(full, blank, m1, program, actions[k], id, offset);
    }
    MarkKeepsGood(full, m1, map[], actions, id, offset, program);
    var (m2, pages2, _) := MarkActions(m1, map[], actions, id, offset);
    HistoryKeepsGood(load, full, m2, pages2, acts);
    var (m3, pages3) := DoAll(load, m2, pages2, acts);
    ResumeRebuilds(load, full, m3, pages3, keys, s, other);
  }
}
