/** What reads return and what refused calls report. */
module MemoryLaws {
  import opened Words
  import opened Outcomes
  import opened Pages
  import opened PageLemmas
  import opened InstructionLaws
  import opened Decode

  /** `load_bytes` returns the bytes of a range in memory; nothing is in bounds anywhere. */
  lemma BytesRead(m: Mem, addr: u64, size: nat)
    ensures var r := LoadBytes(m, addr, size);
            && (r.Ok? <==> size == 0 || addr + size <= |m.data|)
            && (r.Ok? ==> |r.value| == size && forall k :: 0 <= k < size ==> r.value[k] == m.data[addr + k])
            && (r.Err? ==> r.error == OutOfBounds(m, addr, size))
  {
  }

  /** Bytes stored where they may be are read back. */
  lemma StoreThenLoadBytes(m: Mem, addr: u64, bytes: seq<byte>)
    requires Store(m, addr, bytes).1.Pass?
    ensures LoadBytes(Store(m, addr, bytes).0, addr, |bytes|) == Ok(bytes)
  {
    var m' := Store(m, addr, bytes).0;
    if bytes != [] {
      assert m'.data[addr..addr + |bytes|] == bytes;
    }
  }

  /** A fetch reads the number its bytes stand for where every page it touches is executable; otherwise
      it reports the first page that is not. */
  lemma CodeRead(m: Mem, addr: u64, n: nat)
    requires 0 < n <= 8
    ensures var r := ExecuteLoad(m, addr, n);
            && (r.Ok? <==> addr + n <= |m.data| && PagesAre(m, addr / 4096, (addr + n - 1) / 4096, true))
            && (r.Ok? ==> r.value == Number(m.data[addr..addr + n]))
            && (addr + n > |m.data| ==> r == Err(OutOfBounds(m, addr, n)))
            && (addr + n <= |m.data| ==> forall p: nat ::
                  Touches(addr, n, p) && FirstPlain(m, addr / 4096, p) ==> r == Err(MemWriteOnExecutablePage(p)))
  {
    hide Number, FromLe;
    if addr + n <= |m.data| {
      NumberIsWord(m.data[addr..addr + n]);
      forall p: nat | Touches(addr, n, p) && FirstPlain(m, addr / 4096, p)
        ensures ExecuteLoad(m, addr, n) == Err(MemWriteOnExecutablePage(p))
      {
        FirstWrongPage(m, addr / 4096, (addr + n - 1) / 4096, true, p);
      }
    }
  }

  /** Page `p` is the first from `lo` on that is not executable. */
  ghost predicate FirstPlain(m: Mem, lo: nat, p: nat) {
    lo <= p < |m.flags| && !m.flags[p].executable && forall q :: lo <= q < p ==> m.flags[q].executable
  }

  /** Page `p` is the first of the range that is freezed. */
  ghost predicate FirstIn(m: Mem, page: nat, end: nat, p: nat) {
    page <= p < end <= |m.flags| && m.flags[p].freezed && forall q :: page <= q < p ==> !m.flags[q].freezed
  }

  /** What a refused segment reports: alignment of the address, then of the end, then bounds, then
      padding, then the first freezed page. */
  lemma SegmentRefused(m: Mem, addr: u64, size: u64, flags: PageFlags, source: Option<seq<byte>>, offset: u64)
    ensures var s := InitPages(m, addr, size, flags, source, offset).1;
            if addr % 4096 != 0 then s == Fail(MemPageUnalignedAccess(addr))
            else if size % 4096 != 0 then s == Fail(MemPageUnalignedAccess(Wrap(addr + size)))
            else if addr + size > |m.data| then
              s == Fail(MemOutOfBound(if addr > |m.data| then addr else Wrap(addr + size), Memory))
            else if offset > size then s == Fail(MemOutOfBound(offset, ExternalData))
            else forall p: nat :: FirstIn(m, addr / 4096, addr / 4096 + size / 4096, p) ==>
                   s == Fail(MemWriteOnFreezedPage(p))
  {
    hide RoundUp, FillPageData, FirstFreezed, AddFlags, Wrap;
    if addr % 4096 == 0 && size % 4096 == 0 && addr + size <= |m.data| {
      var page, end := addr / 4096, addr / 4096 + size / 4096;
      forall p: nat | FirstIn(m, page, end, p)
        ensures FirstFreezed(m.flags, page, end) == p
      {
        var stop := FirstFreezed(m.flags, page, end);
        assert stop < p ==> false;
      }
    }
  }

  /** Flags are read, added to and taken from one page, bit by bit; a page that does not exist is
      reported by its address. */
  lemma FlagCalls(m: Mem, page: u64, flag: PageFlags)
    ensures page < |m.flags| ==>
              && FetchFlag(m, page) == Ok(m.flags[page])
              && SetFlag(m, page, flag).1.Pass? && ClearFlag(m, page, flag).1.Pass?
              && OnlyPage(m, SetFlag(m, page, flag).0, page) && OnlyPage(m, ClearFlag(m, page, flag).0, page)
              && var (now, added, taken) :=
                   (m.flags[page], SetFlag(m, page, flag).0.flags[page], ClearFlag(m, page, flag).0.flags[page]);
                 && (added.freezed <==> now.freezed || flag.freezed)
                 && (added.executable <==> now.executable || flag.executable)
                 && (added.dirty <==> now.dirty || flag.dirty)
                 && (taken.freezed <==> now.freezed && !flag.freezed)
                 && (taken.executable <==> now.executable && !flag.executable)
                 && (taken.dirty <==> now.dirty && !flag.dirty)
    ensures page >= |m.flags| ==>
              var e := MemOutOfBound(Wrap(4096 * page), Memory);
              FetchFlag(m, page) == Err(e) && SetFlag(m, page, flag) == ClearFlag(m, page, flag) == (m, Fail(e))
  {
  }

  /** Nothing but the flags of one page may differ. */
  ghost predicate OnlyPage(m: Mem, m': Mem, page: nat) {
    && m'.data == m.data && m'.lr == m.lr && |m'.flags| == |m.flags|
    && forall p :: 0 <= p < |m.flags| && p != page ==> m'.flags[p] == m.flags[p]
  }

  /** All pages of a range in memory are executable. */
  ghost predicate AllCode(m: Mem, addr: nat, n: nat) {
    n > 0 && addr + n <= |m.data| && PagesAre(m, addr / 4096, (addr + n - 1) / 4096, true)
  }

  /** At an even address the fetched bits are the two bytes there, or, if their low two bits are 11, the
      four; whether the four lie on one page or two does not matter. */
  lemma InstructionFetched(m: Mem, pc: u64)
    requires pc % 2 == 0 && AllCode(m, pc, 2)
    ensures m.data[pc] % 4 != 3 ==> FetchBits(m, pc) == Ok(Number(m.data[pc..pc + 2]))
    ensures m.data[pc] % 4 == 3 && AllCode(m, pc, 4) ==> FetchBits(m, pc) == Ok(Number(m.data[pc..pc + 4]))
  {
    hide ExecuteLoad, FetchBits, Number, FromLe;
    FetchFollowsRule(m, pc);
    assert Plus(pc, 2) == pc + 2;
    CodeRead(m, pc, 2);
    var low := Number(m.data[pc..pc + 2]);
    assert low % 4 == m.data[pc] % 4 by {
      TwoBytes(m.data[pc..pc + 2]);
    }
    if m.data[pc] % 4 == 3 && AllCode(m, pc, 4) {
      CodeRead(m, pc + 2, 2);
      WordFromHalves(m, pc);
      NumberIsWord(m.data[pc..pc + 2]);
      NumberIsWord(m.data[pc + 2..pc + 4]);
      NumberIsWord(m.data[pc..pc + 4]);
    }
  }

  lemma TwoBytes(s: seq<byte>)
    requires |s| == 2
    ensures var low: int, high: int := s[0], s[1]; Number(s) == low + 0x100 * high
  {
    assert s[..1] == [s[0]] && s[..1][..0] == [];
    assert Number([s[0]]) == s[0] * Pow256(0);
    assert Pow256(0) == 1 && Pow256(1) == 0x100;
  }
}
