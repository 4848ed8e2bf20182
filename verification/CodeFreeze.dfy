/** Executable bytes never change: the write-xor-execute check keeps stores away from them, and
    freezing keeps later segments away. */
module CodeFreeze {
  import opened Words
  import opened Outcomes
  import opened Pages
  import opened Loading
  import Traffic

  const PF_X: bv32 := 1
  const PF_W: bv32 := 2
  const PF_R: bv32 := 4

  /** `convert_flags`: an ELF segment's permissions as page flags. */
  function ConvertFlags(pFlags: bv32, allowFreezeWritable: bool, vaddr: u64): (r: Result<PageFlags>)
    ensures r.Ok? <==> pFlags & PF_R != 0 && !(pFlags & PF_W != 0 && pFlags & PF_X != 0)
    ensures r.Ok? ==> SegmentFlags(r.value) && !r.value.dirty
    ensures r.Ok? ==> (r.value.executable <==> pFlags & PF_X != 0)
    ensures r.Ok? ==> (!r.value.freezed <==> pFlags & PF_W != 0 && !allowFreezeWritable)
    ensures r.Err? ==> r.error == if pFlags & PF_R == 0 then ElfSegmentUnreadable(vaddr)
                                  else ElfSegmentWritableAndExecutable(vaddr)
  {
    var readable, writable, executable := pFlags & PF_R != 0, pFlags & PF_W != 0, pFlags & PF_X != 0;
    if !readable then Err(ElfSegmentUnreadable(vaddr))
    else if writable && executable then Err(ElfSegmentWritableAndExecutable(vaddr))
    else if executable then Ok(PageFlags(true, true, false))
    else if writable && !allowFreezeWritable then Ok(NONE)
    else Ok(PageFlags(true, false, false))
  }

  /** What the loader only ever passes to `init_pages`: an executable segment is freezed. */
  predicate SegmentFlags(f: PageFlags) {
    f.executable ==> f.freezed
  }

  ghost predicate ExecutableIsFreezed(m: Mem) {
    forall p :: 0 <= p < |m.flags| ==> SegmentFlags(m.flags[p])
  }

  /** Every byte executable in `m` is still there, unchanged and executable, in `m'`. */
  ghost predicate CodeKept(m: Mem, m': Mem) {
    && |m'.data| == |m.data|
    && (forall p :: 0 <= p < |m.flags| && m.flags[p].executable ==> m'.flags[p].executable)
    && (forall i :: 0 <= i < |m.data| && m.flags[i / 4096].executable ==> m'.data[i] == m.data[i])
  }

  lemma PageOfByte(addr: nat, n: nat, i: nat)
    ensures addr <= i < addr + n ==> addr / 4096 <= i / 4096 <= (addr + n - 1) / 4096
  {
  }

  lemma CodeKeptTransitive(a: Mem, b: Mem, c: Mem)
    requires CodeKept(a, b) && CodeKept(b, c)
    ensures CodeKept(a, c)
  {
  }

  /** Flags handed to the memory come from `convert_flags` or from a page that had them, and the
      only flag ever cleared is DIRTY. */
  predicate Lawful(c: Traffic.Call) {
    && c.Valid()
    && (c.InitPages? ==> SegmentFlags(c.flags))
    && (c.SetFlag? ==> SegmentFlags(c.flag))
    && (c.ClearFlag? ==> !c.flag.executable && !c.flag.freezed)
  }

  /** A store goes through only where nothing is executable, and makes nothing executable. */
  lemma StoreKeepsCode(m: Mem, addr: u64, bytes: seq<byte>)
    ensures CodeKept(m, Store(m, addr, bytes).0) && CodeKept(Store(m, addr, bytes).0, m)
    ensures ExecutableIsFreezed(m) ==> ExecutableIsFreezed(Store(m, addr, bytes).0)
  {
    var (m', s) := Store(m, addr, bytes);
    if s.Pass? && bytes != [] {
      var lo, hi := addr / 4096, (addr + |bytes| - 1) / 4096;
      assert PagesAre(m, lo, hi, false);
      forall i | 0 <= i < |m.data| && m.flags[i / 4096].executable
        ensures m'.data[i] == m.data[i]
      {
        PageOfByte(addr, |bytes|, i);
      }
      assert forall p :: 0 <= p < |m.flags| ==> m'.flags[p].executable == m.flags[p].executable;
    }
  }

  lemma InitPagesKeepsCode(m: Mem, addr: u64, size: u64, flags: PageFlags, source: Option<seq<byte>>, offset: u64)
    requires ExecutableIsFreezed(m) && SegmentFlags(flags)
    ensures ExecutableIsFreezed(InitPages(m, addr, size, flags, source, offset).0)
    ensures CodeKept(m, InitPages(m, addr, size, flags, source, offset).0)
  {
    hide Pages.FillPageData, RoundUp, Wrap, CheckInit;
    if Loadable(m, addr, size, offset) {
      InitPagesExact(m, addr, size, flags, source, offset);
      var m' := InitPages(m, addr, size, flags, source, offset).0;
      forall i | 0 <= i < |m.data| && m.flags[i / 4096].executable
        ensures m'.data[i] == m.data[i]
      {
        PageOfByte(addr, size, i);
      }
    } else {
      InitPagesSucceeds(m, addr, size, flags, source, offset);
      if InRange(m, addr, size, offset) {
        var page, end := addr / 4096, addr / 4096 + size / 4096;
        var flagged := FlagPages(m, page, end, flags).0;
        assert FlagPages(m, page, end, flags).1.Fail?;
        assert CodeKept(m, flagged) && ExecutableIsFreezed(flagged);
      }
    }
  }

  lemma CallKeepsCode(m: Mem, c: Traffic.Call)
    requires ExecutableIsFreezed(m) && Lawful(c)
    ensures ExecutableIsFreezed(Traffic.Respond(m, c).0) && CodeKept(m, Traffic.Respond(m, c).0)
  {
    match c
    case StoreBytes(addr, bytes) => StoreKeepsCode(m, addr, bytes);
    case StoreByte(addr, size, value) => StoreKeepsCode(m, addr, Repeat(size, value));
    case StoreWord(addr, word, n) => StoreKeepsCode(m, addr, ToLe(word, n));
    case InitPages(addr, size, flags, source, offset) =>
      InitPagesKeepsCode(m, addr, size, flags, source, offset);
    case _ =>
  }

  /** No history of calls changes a byte on a page that was executable when it began, and every
      executable page stays freezed. */
  lemma {:induction false} CodeIsImmutable(m: Mem, calls: seq<Traffic.Call>)
    requires ExecutableIsFreezed(m)
    requires Traffic.AllValid(calls) && forall k :: 0 <= k < |calls| ==> Lawful(calls[k])
    ensures ExecutableIsFreezed(Traffic.After(m, calls)) && CodeKept(m, Traffic.After(m, calls))
    decreases |calls|
  {
    if calls != [] {
      var m1 := Traffic.Respond(m, calls[0]).0;
      CallKeepsCode(m, calls[0]);
      CodeIsImmutable(m1, calls[1..]);
      CodeKeptTransitive(m, m1, Traffic.After(m1, calls[1..]));
    }
  }

  /** A segment put over executable pages, freezed or not, keeps the code exactly when it does not go
      through or brings the bytes that are there. */
  lemma InitPagesKeepsCodeExactly(m: Mem, addr: u64, size: u64, flags: PageFlags, source: Option<seq<byte>>,
                                  offset: u64)
    ensures CodeKept(m, InitPages(m, addr, size, flags, source, offset).0) <==>
            (Loadable(m, addr, size, offset) ==> BringsTheCode(m, addr, size, source, offset))
  {
    hide Pages.FillPageData, RoundUp, Wrap;
    var m' := InitPages(m, addr, size, flags, source, offset).0;
    if Loadable(m, addr, size, offset) {
      InitPagesExact(m, addr, size, flags, source, offset);
      if CodeKept(m, m') {
        forall i | addr <= i < addr + size && m.flags[i / 4096].executable
          ensures SegmentByte(source, offset, i - addr) == m.data[i]
        {
          assert m'.data[i] == m.data[i];
        }
      }
    } else {
      FailedKeepsCode(m, addr, size, flags, source, offset);
    }
  }

  /** The segment has, on executable pages, the bytes that are there already. */
  ghost predicate BringsTheCode(m: Mem, addr: nat, size: nat, source: Option<seq<byte>>, offset: nat)
    requires addr + size <= |m.data|
  {
    forall i :: addr <= i < addr + size && m.flags[i / 4096].executable ==>
      SegmentByte(source, offset, i - addr) == m.data[i]
  }

  lemma FailedKeepsCode(m: Mem, addr: u64, size: u64, flags: PageFlags, source: Option<seq<byte>>, offset: u64)
    requires !Loadable(m, addr, size, offset)
    ensures CodeKept(m, InitPages(m, addr, size, flags, source, offset).0)
  {
    InitPagesSucceeds(m, addr, size, flags, source, offset);
    if InRange(m, addr, size, offset) {
      var page, end := addr / 4096, addr / 4096 + size / 4096;
      assert FlagPages(m, page, end, flags).1.Fail?;
    }
  }

  /** Without freezing the guarantee is gone: a segment of zeros goes over code that is not freezed,
      in every memory that has such code. */
  lemma UnfreezedCodeIsOverwritten(m: Mem, page: nat, i: nat)
    requires page < |m.flags| && m.flags[page].executable && !m.flags[page].freezed
    requires 4096 * page <= i < 4096 * page + 4096 && m.data[i] != 0
    ensures !CodeKept(m, InitPages(m, 4096 * page, 4096, NONE, None, 0).0)
  {
    hide InitPages, CodeKept;
    InitPagesKeepsCodeExactly(m, 4096 * page, 4096, NONE, None, 0);
    assert Loadable(m, 4096 * page, 4096, 0);
    assert i / 4096 == page;
    assert SegmentByte(None, 0, i - 4096 * page) != m.data[i];
  }
}
