/** `Snapshot2Context`: the page map kept beside a running machine, and the two ends of a snapshot. */
module SnapshotContext {
  import opened Words
  import opened Outcomes
  import opened Pages
  import opened Tracking
  import opened History
  import opened Snapshot
  import opened R = Resume
  import M = Machine

  class Snapshot2Context {
    var pages: PageMap
    const source: Loader

    constructor (source: Loader)
      ensures pages == map[] && this.source == source
    {
      this.pages := map[];
      this.source := source;
    }

    /** The map is right about the machine's memory. */
    ghost predicate Tracks(full: Id -> seq<byte>, machine: M.DefaultMachine)
      reads this, machine
    {
      Good(full, machine.memory, pages)
    }

    method LoadData(id: Id, offset: u64, length: u64) returns (r: Result<(seq<byte>, u64)>)
      ensures r == if source(id, offset, length).Some? then Ok(source(id, offset, length).value)
              else Err(SnapshotDataLoadError)
    {
      var answer := source(id, offset, length);
      return if answer.Some? then Ok(answer.value) else Err(SnapshotDataLoadError);
    }

    method TrackPages(machine: M.DefaultMachine, start: u64, size: u64, id: Id, at: u64) returns (s: Status)
      modifies this, machine`memory
      ensures (machine.memory, pages, s) == Tracking.TrackPages(old(machine.memory), old(pages), start, size, id, at)
    {
      hide RoundUp, ClearFlag;
      var alignedStart := RoundUp(start);
      var alignedBytes := Minus(alignedStart, start);
      if size < alignedBytes {
        return Pass;
      }
      var page: u64, length: u64, offset: u64 := alignedStart / 4096, size - alignedBytes, Plus(at, alignedBytes);
      ghost var n: nat := length / 4096;
      ghost var result := TrackRange(machine.memory, pages, page, n, id, offset);
      while length >= 4096
        invariant 4096 * n <= length < 4096 * n + 4096
        invariant result == TrackRange(machine.memory, pages, page, n, id, offset)
      {
        var (m, status) := ClearFlag(machine.memory, page, DIRTY);
        ClearFlagInRange(machine.memory, page, DIRTY);
        machine.memory, s := m, status;
        if s.Fail? {
          return;
        }
        pages := pages[page := Tracked(id, offset, machine.memory.flags[page])];
        page, length, offset, n := page + 1, length - 4096, Plus(offset, 4096), n - 1;
      }
      return Pass;
    }

    method UntrackPages(machine: M.DefaultMachine, start: u64, length: u64) returns (s: Status)
      modifies this, machine`memory
      ensures (machine.memory, pages, s) == Tracking.UntrackPages(old(machine.memory), old(pages), start, length)
    {
      if length == 0 {
        return Pass;
      }
      var page: nat, last: nat := start / 4096, Minus(Plus(start, length), 1) / 4096;
      while page <= last
        invariant page <= last + 1 || page == start / 4096
        invariant UntrackRange(old(machine.memory), old(pages), start / 4096, last)
               == UntrackRange(machine.memory, pages, page, last)
        decreases last + 1 - page
      {
        var (m, status) := SetFlag(machine.memory, page, DIRTY);
        machine.memory, s := m, status;
        if s.Fail? {
          return;
        }
        pages := pages - {page};
        page := page + 1;
      }
      return Pass;
    }

    /** Untracks before writing and tracks after, so a failure in between leaves the pages dirty. */
    method StoreBytes(machine: M.DefaultMachine, addr: u64, id: Id, offset: u64, length: u64, sizeAddr: u64,
                      ghost full: Id -> seq<byte>)
      returns (r: Result<(nat, u64)>)
      modifies this, machine`memory
      ensures (machine.memory, pages, r)
           == History.StoreBytes(source, old(machine.memory), old(pages), addr, id, offset, length, sizeAddr)
      ensures Stable(source, full) && old(Tracks(full, machine)) ==> Tracks(full, machine)
    {
      hide Good, Stable, Tracking.TrackPages, Tracking.UntrackPages, StoreWord, Store;
      if Stable(source, full) && Tracks(full, machine) {
        DoKeepsGood(source, full, machine.memory, pages, Fetch(addr, id, offset, length, sizeAddr));
      }
      var loaded := LoadData(id, offset, length);
      if loaded.Err? {
        return Err(loaded.error);
      }
      var (data, fullLength) := loaded.value;
      if |data| >= 0x1_0000_0000_0000_0000 {
        return Err(SnapshotDataLoadError);
      }
      var s: Status;
      var (m, status) := StoreWord(machine.memory, sizeAddr, fullLength, 8);
      machine.memory, s := m, status;
      if s.Fail? {
        return Err(s.error);
      }
      s := UntrackPages(machine, addr, |data|);
      if s.Fail? {
        return Err(s.error);
      }
      var (written, outcome) := Store(machine.memory, addr, data);
      machine.memory, s := written, outcome;
      if s.Fail? {
        return Err(s.error);
      }
      s := TrackPages(machine, addr, |data|, id, offset);
      if s.Fail? {
        return Err(s.error);
      }
      return Ok((|data|, fullLength));
    }

    // ---- Taking a snapshot ----

    /** The keys of the page map, sorted. */
    method Keys() returns (keys: seq<u64>)
      ensures SortedKeys(pages, keys)
    {
      keys := [];
      var left := pages.Keys;
      while left != {}
        invariant left <= pages.Keys && Ascending(keys)
        invariant forall k :: k in keys <==> k in pages && k !in left
        invariant forall i, k :: 0 <= i < |keys| && k in left ==> keys[i] < k
      {
        var least := Least(left);
        keys, left := keys + [least], left - {least};
      }
    }

    static method Least(s: set<u64>) returns (least: u64)
      requires s != {}
      ensures least in s && forall k :: k in s ==> least <= k
    {
      least :| least in s;
      var left := s - {least};
      while left != {}
        invariant left <= s && least in s
        invariant forall k :: k in s && k !in left ==> least <= k
      {
        var k :| k in left;
        if k < least {
          least := k;
        }
        left := left - {k};
      }
    }

    method CollectDirty(machine: M.DefaultMachine) returns (runs: seq<DirtyRun>)
      ensures runs == DirtyRuns(machine.memory, |machine.memory.flags|)
    {
      runs := [];
      for i := 0 to |machine.memory.flags|
        invariant runs == DirtyRuns(machine.memory, i)
      {
        var flag := machine.memory.flags[i];
        if flag.dirty {
          var address, data := 4096 * i, PageBytes(machine.memory, i);
          var last := |runs| - 1;
          if last >= 0 && runs[last].address + |runs[last].content| == address && runs[last].flag == flag {
            runs := runs[..last] + [runs[last].(content := runs[last].content + data)];
          } else {
            runs := runs + [DirtyRun(address, flag, data)];
          }
        }
      }
    }

    method CollectSource(machine: M.DefaultMachine, keys: seq<u64>) returns (r: Result<seq<SourceRun>>)
      requires forall k :: k in keys ==> k in pages
      ensures r == SourceRuns(machine.memory, pages, keys)
    {
      var runs: seq<SourceRun> := [];
      for i := 0 to |keys|
        invariant SourceRuns(machine.memory, pages, keys[..i]) == Ok(runs)
      {
        assert keys[..i + 1][..i] == keys[..i];
        assert keys[i] in keys;
        var page := keys[i];
        var flag := FetchFlag(machine.memory, page);
        if flag.Err? {
          FailsAt(machine.memory, pages, keys, i + 1);
          return Err(flag.error);
        }
        if !flag.value.dirty {
          var t, address, last := pages[page], Wrap(4096 * page), |runs| - 1;
          if last >= 0 && runs[last].address + runs[last].length == address && runs[last].flag == t.flag
             && runs[last].id == t.id && runs[last].offset + runs[last].length == t.offset {
            runs := runs[..last] + [runs[last].(length := Plus(runs[last].length, 4096))];
          } else {
            runs := runs + [SourceRun(address, t.flag, t.id, t.offset, 4096)];
          }
        }
      }
      assert keys[..|keys|] == keys;
      return Ok(runs);
    }

    method MakeSnapshot(machine: M.DefaultMachine) returns (r: Result<Snapshot2>, ghost keys: seq<u64>)
      ensures SortedKeys(pages, keys)
      ensures r.Err? ==> SourceRuns(machine.memory, pages, keys) == Err(r.error)
      ensures r.Ok? ==> Shot(machine.memory, pages, keys, r.value)
      ensures r.Ok? ==>
                && r.value.version == machine.version
                && r.value.registers == machine.registers && r.value.pc == machine.pc
                && r.value.cycles == machine.cycles && r.value.maxCycles == machine.maxCycles
    {
      hide SourceRuns, DirtyRuns;
      var dirty := CollectDirty(machine);
      var k := Keys();
      keys := k;
      var fromSource := CollectSource(machine, k);
      if fromSource.Err? {
        return Err(fromSource.error), k;
      }
      return Ok(Snapshot2(fromSource.value, dirty, machine.version, machine.registers, machine.pc,
                          machine.cycles, machine.maxCycles, machine.memory.lr)), k;
    }

    // ---- Resuming ----

    static method PutPages(machine: M.DefaultMachine, address: u64, flag: PageFlags,
                           content: seq<byte>) returns (s: Status)
      modifies machine`memory
      ensures (machine.memory, s) == R.PutPages(old(machine.memory), address, flag, content)
    {
      hide Store, SetFlag;
      if address % 4096 != 0 {
        return Fail(MemPageUnalignedAccess(address));
      }
      if |content| % 4096 != 0 {
        return Fail(MemPageUnalignedAccess(Plus(address, |content|)));
      }
      var (m, status) := Store(machine.memory, address, content);
      machine.memory, s := m, status;
      if s.Fail? {
        return;
      }
      var n := |content| / 4096;
      ghost var stored := machine.memory;
      for i := 0 to n
        invariant address / 4096 + i <= |machine.memory.flags| || i == 0
        invariant SetFlags(stored, address / 4096, n, flag) == SetFlags(machine.memory, address / 4096 + i, n - i, flag)
      {
        var (m, status) := SetFlag(machine.memory, address / 4096 + i, flag);
        SetFlagInRange(machine.memory, address / 4096 + i, flag);
        machine.memory, s := m, status;
        if s.Fail? {
          return;
        }
      }
      return Pass;
    }

    /** Rebuilds memory run by run; on a snapshot of a tracked machine and a fresh memory of the same
        size it gives back the machine that was snapshotted. */
    method Resume(machine: M.DefaultMachine, snapshot: Snapshot2) returns (s: Status)
      modifies this, machine
      ensures machine.version != snapshot.version ==>
                s == Fail(InvalidVersion) && machine.St() == old(machine.St()) && pages == old(pages)
      ensures machine.version == snapshot.version ==>
                && (machine.memory, pages, s) == ResumeAll(source, old(machine.memory), snapshot)
                && machine.registers == snapshot.registers && machine.pc == snapshot.pc
                && machine.cycles == snapshot.cycles && machine.maxCycles == snapshot.maxCycles
                && machine.running == old(machine.running) && machine.exitCode == old(machine.exitCode)
    {
      hide R.PutPages, Tracking.TrackPages;
      if machine.version != snapshot.version {
        return Fail(InvalidVersion);
      }
      pages := map[];
      machine.registers, machine.pc, machine.nextPc := snapshot.registers, snapshot.pc, snapshot.pc;
      machine.cycles, machine.maxCycles := snapshot.cycles, snapshot.maxCycles;
      var runs := snapshot.pagesFromSource;
      for k := 0 to |runs|
        invariant ResumeSources(source, old(machine.memory), map[], runs)
                  == ResumeSources(source, machine.memory, pages, runs[k..])
        invariant machine.registers == snapshot.registers && machine.pc == snapshot.pc
        invariant machine.cycles == snapshot.cycles && machine.maxCycles == snapshot.maxCycles
        invariant machine.running == old(machine.running) && machine.exitCode == old(machine.exitCode)
      {
        assert runs[k..][1..] == runs[k + 1..];
        s := ResumeRun(machine, runs[k]);
        if s.Fail? {
          return;
        }
      }
      var dirty := snapshot.dirtyPages;
      ghost var m1 := machine.memory;
      for k := 0 to |dirty|
        invariant ResumeDirty(m1, dirty) == ResumeDirty(machine.memory, dirty[k..])
        invariant machine.registers == snapshot.registers && machine.pc == snapshot.pc
        invariant machine.cycles == snapshot.cycles && machine.maxCycles == snapshot.maxCycles
        invariant machine.running == old(machine.running) && machine.exitCode == old(machine.exitCode)
        invariant ResumeSources(source, old(machine.memory), map[], runs) == (m1, pages, Pass)
      {
        assert dirty[k..][1..] == dirty[k + 1..];
        s := PutPages(machine, dirty[k].address, dirty[k].flag, dirty[k].content);
        if s.Fail? {
          return;
        }
      }
      machine.memory := machine.memory.(lr := snapshot.loadReservationAddress);
      return Pass;
    }

    method ResumeRun(machine: M.DefaultMachine, r: SourceRun) returns (s: Status)
      modifies this, machine`memory
      ensures (machine.memory, pages, s) == ResumeSource(source, old(machine.memory), old(pages), r)
    {
      hide R.PutPages, Tracking.TrackPages;
      if r.address % 4096 != 0 {
        return Fail(MemPageUnalignedAccess(r.address));
      }
      var loaded := LoadData(r.id, r.offset, r.length);
      if loaded.Err? {
        return Fail(loaded.error);
      }
      var data := loaded.value.0;
      if |data| >= 0x1_0000_0000_0000_0000 {
        return Fail(SnapshotDataLoadError);
      }
      s := PutPages(machine, r.address, r.flag, data);
      if s.Fail? {
        return;
      }
      s := TrackPages(machine, r.address, |data|, r.id, r.offset);
    }
  }

  lemma ClearFlagInRange(m: Mem, page: u64, flag: PageFlags)
    ensures ClearFlag(m, page, flag).1.Pass? ==> page < |m.flags| == |ClearFlag(m, page, flag).0.flags|
  {
  }

  lemma SetFlagInRange(m: Mem, page: u64, flag: PageFlags)
    ensures SetFlag(m, page, flag).1.Pass? ==> page < |m.flags| == |SetFlag(m, page, flag).0.flags|
  {
  }

  /** A failure among the first keys is the failure of them all. */
  lemma {:induction false} FailsAt(m: Mem, pages: PageMap, keys: seq<u64>, n: nat)
    requires n <= |keys| && (forall k :: k in keys ==> k in pages)
    requires SourceRuns(m, pages, keys[..n]).Err?
    ensures SourceRuns(m, pages, keys) == SourceRuns(m, pages, keys[..n])
    decreases |keys|
  {
    if n == |keys| {
      assert keys[..n] == keys;
    } else {
      assert keys[..|keys| - 1][..n] == keys[..n];
      FailsAt(m, pages, keys[..|keys| - 1], n);
    }
  }

  /** Suspend one machine and resume another of the same size and version: the same bytes, flags,
      registers, pc, cycles and reservation, and a second snapshot like the first. */
  method SuspendAndResume(from: M.DefaultMachine, c: Snapshot2Context, to: M.DefaultMachine, d: Snapshot2Context,
                          ghost full: Id -> seq<byte>)
    returns (first: Result<Snapshot2>, second: Result<Snapshot2>)
    requires Stable(c.source, full) && d.source == c.source && c.Tracks(full, from)
    requires from != to && c != d && from.version == to.version
    requires |to.memory.flags| == |from.memory.flags| && forall p :: 0 <= p < |to.memory.flags| ==> Fresh(to.memory, p)
    modifies to, d
    ensures to.St() == from.St().(running := old(to.running), exitCode := old(to.exitCode))
    ensures d.Tracks(full, to)
    ensures first.Ok? && second == first
  {
    hide Good, ResumeAll, Shot, SourceRuns, SourceList;
    ghost var keys, keys';
    first, keys := c.MakeSnapshot(from);
    SourceRunsTrue(full, from.memory, c.pages, keys);
    ResumeRebuilds(c.source, full, from.memory, c.pages, keys, first.value, to.memory);
    var s := d.Resume(to, first.value);
    ResumedIsGood(full, from.memory, c.pages);
    second, keys' := d.MakeSnapshot(to);
    SourceRunsTrue(full, to.memory, d.pages, keys');
    SnapshotIsStable(full, from.memory, c.pages, keys, first.value, keys', second.value);
  }
}
