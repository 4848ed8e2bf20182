/** A segment that runs into a freezed page has already put its flags on the pages before it, but not
    marked them dirty: what a snapshot taken then gives back. */
module PartialLoad {
  import opened Words
  import opened Outcomes
  import opened Pages
  import Loading
  import opened Tracking
  import opened History
  import opened Snapshot
  import opened Resume

  /** `m'` with the flags of its clean pages as they are in `m`. */
  function Forgetting(m: Mem, m': Mem): (r: Mem)
    requires |m'.flags| == |m.flags|
    ensures |r.flags| == |m.flags|
  {
    m'.(flags := seq(|m.flags|, p requires 0 <= p < |m.flags| =>
      if m.flags[p].dirty then m'.flags[p] else m.flags[p]))
  }

  /** Only flags differ, dirty pages are the same. */
  ghost predicate Reflagged(m: Mem, m': Mem) {
    && m'.data == m.data && m'.lr == m.lr && |m'.flags| == |m.flags|
    && forall p :: 0 <= p < |m.flags| ==> m'.flags[p].dirty == m.flags[p].dirty
  }

  lemma ForgettingIsGood(full: Id -> seq<byte>, m: Mem, m': Mem, pages: PageMap)
    requires Good(full, m, pages) && Reflagged(m, m')
    ensures Good(full, Forgetting(m, m'), pages)
  {
    var r := Forgetting(m, m');
    forall p | 0 <= p < |m.flags|
      ensures PageGood(full, r, pages, p)
    {
      assert PageGood(full, m, pages, p);
      if !m.flags[p].dirty {
        SamePage(full, m, pages, r, pages, p);
      }
    }
  }

  lemma {:induction false} SameDirtyRuns(m: Mem, m': Mem, n: nat)
    requires Reflagged(m, m') && n <= |m.flags|
    ensures DirtyRuns(Forgetting(m, m'), n) == DirtyRuns(m', n)
  {
    hide AddDirty;
    if n > 0 {
      SameDirtyRuns(m, m', n - 1);
    }
  }

  lemma {:induction false} SameSourceRuns(m: Mem, m': Mem, pages: PageMap, keys: seq<u64>)
    requires Reflagged(m, m') && forall k :: k in keys ==> k in pages
    ensures SourceRuns(Forgetting(m, m'), pages, keys) == SourceRuns(m', pages, keys)
    decreases |keys|
  {
    hide AddSource;
    if keys != [] {
      SameSourceRuns(m, m', pages, keys[..|keys| - 1]);
    }
  }

  /** Flags put on clean pages behind the page map's back are exactly what a snapshot forgets. */
  lemma SnapshotForgets(load: Loader, full: Id -> seq<byte>, m: Mem, m': Mem, pages: PageMap, keys: seq<u64>,
                        s: Snapshot2, m0: Mem)
    requires Stable(load, full) && Good(full, m, pages) && Reflagged(m, m') && Shot(m', pages, keys, s)
    requires |m0.flags| == |m.flags| && forall q :: 0 <= q < |m0.flags| ==> Fresh(m0, q)
    ensures ResumeAll(load, m0, s) == (Forgetting(m, m'), CleanPart(m, pages), Pass)
  {
    hide Good, DirtyRuns, SourceRuns, ResumeAll, Stable;
    var r := Forgetting(m, m');
    ForgettingIsGood(full, m, m', pages);
    SameDirtyRuns(m, m', |m.flags|);
    SameSourceRuns(m, m', pages, keys);
    ResumeRebuilds(load, full, r, pages, keys, s, m0);
    assert CleanPart(r, pages) == CleanPart(m, pages);
  }

  /** Every page from `page` up to `stop` was dirty or had the flags already. */
  ghost predicate NothingToForget(m: Mem, page: nat, stop: nat, flags: PageFlags)
    requires stop <= |m.flags|
  {
    forall p :: page <= p < stop ==> m.flags[p].dirty || m.flags[p].Or(flags) == m.flags[p]
  }

  lemma ForgetsFlags(m: Mem, page: nat, stop: nat, flags: PageFlags)
    requires page <= stop <= |m.flags| && !flags.dirty
    ensures Reflagged(m, AddFlags(m, page, stop, flags))
    ensures Forgetting(m, AddFlags(m, page, stop, flags)) == AddFlags(m, page, stop, flags)
       <==> NothingToForget(m, page, stop, flags)
  {
    var m' := AddFlags(m, page, stop, flags);
    var r := Forgetting(m, m');
    if r == m' {
      forall p | page <= p < stop
        ensures m.flags[p].dirty || m.flags[p].Or(flags) == m.flags[p]
      {
        assert r.flags[p] == m'.flags[p];
      }
    }
    if NothingToForget(m, page, stop, flags) {
      assert r.flags == m'.flags;
    }
  }

  /** What a failing `init_pages` leaves: nothing, or the flags up to the first freezed page. */
  lemma FailedLoad(m: Mem, addr: u64, size: u64, flags: PageFlags, source: Option<seq<byte>>, offset: u64)
    requires InitPages(m, addr, size, flags, source, offset).1.Fail?
    ensures InitPages(m, addr, size, flags, source, offset).0 ==
            if CheckInit(m, addr, size, offset).Fail? then m
            else AddFlags(m, addr / 4096, StopsAt(m, addr, size, offset), flags)
    ensures CheckInit(m, addr, size, offset).Pass? ==>
              var stop := StopsAt(m, addr, size, offset);
              && addr / 4096 <= stop < |m.flags| && m.flags[stop].freezed
              && InitPages(m, addr, size, flags, source, offset).1 == Fail(MemWriteOnFreezedPage(stop))
  {
    hide FillPageData, RoundUp, Wrap;
    if CheckInit(m, addr, size, offset).Pass? {
      AllFlaggedIsNoFailure(m, addr, size, flags, source, offset);
    }
  }

  /** The first freezed page of the range, or its end. */
  function StopsAt(m: Mem, addr: u64, size: u64, offset: u64): nat
    requires CheckInit(m, addr, size, offset).Pass?
  {
    FirstFreezed(m.flags, addr / 4096, addr / 4096 + size / 4096)
  }

  lemma AllFlaggedIsNoFailure(m: Mem, addr: u64, size: u64, flags: PageFlags, source: Option<seq<byte>>, offset: u64)
    requires CheckInit(m, addr, size, offset).Pass?
    ensures StopsAt(m, addr, size, offset) == addr / 4096 + size / 4096 ==>
              InitPages(m, addr, size, flags, source, offset).1.Pass?
  {
    hide InitPages, RoundUp, Wrap;
    Loading.InitPagesSucceeds(m, addr, size, flags, source, offset);
  }

  lemma HalfLoadedDirty(full: Id -> seq<byte>, m: Mem, pages: PageMap, page: nat, stop: nat, flags: PageFlags)
    requires Good(full, m, pages) && page <= stop <= |m.flags| && flags.dirty
    ensures Good(full, AddFlags(m, page, stop, flags), pages)
    ensures |AddFlags(m, page, stop, flags).flags| == |m.flags|
  {
    hide Good;
    History.HalfLoaded(full, m, pages, page, stop, flags);
  }

  /** After a failed `init_pages` the snapshot resumes, and gives back the memory exactly when the call
      did not get past its argument checks, or its flags say DIRTY, or every page it reached was dirty or
      had the flags. */
  lemma FailedLoadRoundTrip(load: Loader, full: Id -> seq<byte>, m: Mem, pages: PageMap, addr: u64, size: u64,
                            flags: PageFlags, source: Option<seq<byte>>, offset: u64, keys: seq<u64>, s: Snapshot2,
                            m0: Mem)
    requires Stable(load, full) && Good(full, m, pages)
    requires InitPages(m, addr, size, flags, source, offset).1.Fail?
    requires Shot(InitPages(m, addr, size, flags, source, offset).0, pages, keys, s)
    requires |m0.flags| == |m.flags| && forall q :: 0 <= q < |m0.flags| ==> Fresh(m0, q)
    ensures ResumeAll(load, m0, s).2.Pass?
    ensures ResumeAll(load, m0, s).0 == InitPages(m, addr, size, flags, source, offset).0
       <==> CheckInit(m, addr, size, offset).Fail? || flags.dirty
            || NothingToForget(m, addr / 4096, StopsAt(m, addr, size, offset), flags)
  {
    hide InitPages, CheckInit, Good, Shot, ResumeAll, Stable, AddFlags, Forgetting, NothingToForget;
    FailedLoad(m, addr, size, flags, source, offset);
    var m' := InitPages(m, addr, size, flags, source, offset).0;
    if CheckInit(m, addr, size, offset).Fail? {
      ResumeRebuilds(load, full, m, pages, keys, s, m0);
    } else if flags.dirty {
      HalfLoadedDirty(full, m, pages, addr / 4096, StopsAt(m, addr, size, offset), flags);
      ResumeRebuilds(load, full, m', pages, keys, s, m0);
    } else {
      ForgetsFlags(m, addr / 4096, StopsAt(m, addr, size, offset), flags);
      SnapshotForgets(load, full, m, m', pages, keys, s, m0);
    }
  }

  // ---- A memory of two pages ----

  const CODE := PageFlags(true, true, false)

  /** A fresh page, and behind it a freezed one. */
  function TwoPages(): (m: Mem)
    ensures |m.flags| == 2 && m.flags[0] == NONE && m.flags[1] == PageFlags(true, false, true)
    ensures m.lr == 0 && forall i :: 0 <= i < |m.data| ==> m.data[i] == 0
  {
    MemBase(Repeat(8192, 0), [NONE, PageFlags(true, false, true)], 0)
  }

  /** The same with the first page flagged as code. */
  function HalfLoaded(): (m: Mem)
    ensures |m.flags| == 2 && m.flags[0] == CODE
  {
    AddFlags(TwoPages(), 0, 1, CODE)
  }

  lemma TwoPagesFail()
    ensures InitPages(TwoPages(), 0, 8192, CODE, None, 0) == (HalfLoaded(), Fail(MemWriteOnFreezedPage(1)))
  {
    hide FillPageData, TwoPages, RoundUp, Wrap;
    var m := TwoPages();
    assert RoundUp(8192) == 8192;
    assert CheckInit(m, 0, 8192, 0).Pass?;
    assert FirstFreezed(m.flags, 1, 2) == 1;
    assert FirstFreezed(m.flags, 0, 2) == 1;
    assert FlagPages(m, 0, 2, CODE) == (HalfLoaded(), Fail(MemWriteOnFreezedPage(1)));
  }

  /** An executable segment over both pages fails on the second; a snapshot taken then resumes without
      an error to a memory whose first page is no longer code. */
  lemma ForgottenFlags(load: Loader, full: Id -> seq<byte>, s: Snapshot2, m0: Mem)
    requires Stable(load, full) && |m0.flags| == 2 && forall q :: 0 <= q < 2 ==> Fresh(m0, q)
    requires s.pagesFromSource == [] && s.dirtyPages == DirtyRuns(TwoPages(), 2) && s.loadReservationAddress == 0
    ensures InitPages(TwoPages(), 0, 8192, CODE, None, 0) == (HalfLoaded(), Fail(MemWriteOnFreezedPage(1)))
    ensures Shot(HalfLoaded(), map[], [], s)
    ensures ResumeAll(load, m0, s) == (TwoPages(), map[], Pass) && TwoPages() != HalfLoaded()
  {
    hide ResumeAll, Stable, DirtyRuns, TwoPages, InitPages;
    var m, m' := TwoPages(), HalfLoaded();
    TwoPagesFail();
    ForgetsFlags(m, 0, 1, CODE);
    SameDirtyRuns(m, m', 2);
    assert Forgetting(m, m') == m by {
      assert Forgetting(m, m').flags == m.flags;
    }
    assert Fresh(m, 0);
    forall p | 0 <= p < 2
      ensures PageGood(full, m, map[], p)
    {
    }
    SnapshotForgets(load, full, m, m', map[], [], s, m0);
    assert CleanPart(m, map[]) == map[];
  }
}
