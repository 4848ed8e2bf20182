/** Resuming rebuilds the memory that was snapshotted, byte by byte and flag by flag, and the page
    map that goes with it. */
module Resume {
  import opened Words
  import opened Outcomes
  import opened Pages
  import opened PageLemmas
  import opened Tracking
  import opened History
  import opened Snapshot

  // ---- Replaying runs ----

  /** The flag loop of `resume`. */
  function SetFlags(m: Mem, page: u64, n: nat, flag: PageFlags): (Mem, Status)
    decreases n
  {
    if n == 0 then (m, Pass)
    else
      match SetFlag(m, page, flag)
      case (m', Fail(e)) => (m', Fail(e))
      case (m', Pass) => SetFlags(m', page + 1, n - 1, flag)
  }

  /** Content and flags of consecutive pages, the content first. */
  function PutPages(m: Mem, address: u64, flag: PageFlags, content: seq<byte>): (Mem, Status) {
    if address % 4096 != 0 then (m, Fail(MemPageUnalignedAccess(address)))
    else if |content| % 4096 != 0 then (m, Fail(MemPageUnalignedAccess(Plus(address, |content|))))
    else
      match Store(m, address, content)
      case (m', Fail(e)) => (m', Fail(e))
      case (m', Pass) => SetFlags(m', address / 4096, |content| / 4096, flag)
  }

  /** One entry of `pages_from_source`. The address is checked before the data is loaded. */
  function ResumeSource(load: Loader, m: Mem, pages: PageMap, r: SourceRun): (Mem, PageMap, Status) {
    if r.address % 4096 != 0 then (m, pages, Fail(MemPageUnalignedAccess(r.address)))
    else
      match load(r.id, r.offset, r.length)
      case None => (m, pages, Fail(SnapshotDataLoadError))
      case Some((data, _)) =>
        if |data| >= 0x1_0000_0000_0000_0000 then (m, pages, Fail(SnapshotDataLoadError)) else
        match PutPages(m, r.address, r.flag, data)
        case (m', Fail(e)) => (m', pages, Fail(e))
        case (m', Pass) => TrackPages(m', pages, r.address, |data|, r.id, r.offset)
  }

  function ResumeSources(load: Loader, m: Mem, pages: PageMap, runs: seq<SourceRun>): (Mem, PageMap, Status)
    decreases |runs|
  {
    if runs == [] then (m, pages, Pass)
    else
      match ResumeSource(load, m, pages, runs[0])
      case (m', pages', Fail(e)) => (m', pages', Fail(e))
      case (m', pages', Pass) => ResumeSources(load, m', pages', runs[1..])
  }

  function ResumeDirty(m: Mem, runs: seq<DirtyRun>): (Mem, Status)
    decreases |runs|
  {
    if runs == [] then (m, Pass)
    else
      match PutPages(m, runs[0].address, runs[0].flag, runs[0].content)
      case (m', Fail(e)) => (m', Fail(e))
      case (m', Pass) => ResumeDirty(m', runs[1..])
  }

  /** What `resume` does to memory and page map. */
  function ResumeAll(load: Loader, m: Mem, s: Snapshot2): (Mem, PageMap, Status) {
    match ResumeSources(load, m, map[], s.pagesFromSource)
    case (m1, pages, Fail(e)) => (m1, pages, Fail(e))
    case (m1, pages, Pass) =>
      match ResumeDirty(m1, s.dirtyPages)
      case (m2, Fail(e)) => (m2, pages, Fail(e))
      case (m2, Pass) => (m2.(lr := s.loadReservationAddress), pages, Pass)
  }

  // ---- Runs are replayed in order, up to the first failure ----

  /** What `PutPages` asks of a run: whole pages at a page's address. */
  lemma UnalignedRunRefused(m: Mem, address: u64, flag: PageFlags, content: seq<byte>)
    ensures address % 4096 != 0 ==>
              PutPages(m, address, flag, content) == (m, Fail(MemPageUnalignedAccess(address)))
    ensures address % 4096 == 0 && |content| % 4096 != 0 ==>
              PutPages(m, address, flag, content) == (m, Fail(MemPageUnalignedAccess(Wrap(address + |content|))))
  {
  }

  /** Dirty runs `a` and then `b`: a failure in `a` is the end of it. */
  lemma {:induction false} DirtyInOrder(m: Mem, a: seq<DirtyRun>, b: seq<DirtyRun>)
    ensures ResumeDirty(m, a + b) ==
            match ResumeDirty(m, a)
            case (m', Fail(e)) => (m', Fail(e))
            case (m', Pass) => ResumeDirty(m', b)
    decreases |a|
  {
    hide PutPages;
    if a == [] {
      assert a + b == b;
    } else {
      assert (a + b)[0] == a[0] && (a + b)[1..] == a[1..] + b;
      DirtyInOrder(PutPages(m, a[0].address, a[0].flag, a[0].content).0, a[1..], b);
    }
  }

  lemma {:induction false} SourcesInOrder(load: Loader, m: Mem, pages: PageMap, a: seq<SourceRun>, b: seq<SourceRun>)
    ensures ResumeSources(load, m, pages, a + b) ==
            match ResumeSources(load, m, pages, a)
            case (m', pages', Fail(e)) => (m', pages', Fail(e))
            case (m', pages', Pass) => ResumeSources(load, m', pages', b)
    decreases |a|
  {
    hide ResumeSource;
    if a == [] {
      assert a + b == b;
    } else {
      assert (a + b)[0] == a[0] && (a + b)[1..] == a[1..] + b;
      var (m1, pages1, _) := ResumeSource(load, m, pages, a[0]);
      SourcesInOrder(load, m1, pages1, a[1..], b);
    }
  }

  /** A source run at an unaligned address is refused before the source is asked, one that the source
      does not have right after; neither changes anything. */
  lemma SourceRunRefused(load: Loader, m: Mem, pages: PageMap, r: SourceRun)
    ensures r.address % 4096 != 0 ==>
              ResumeSource(load, m, pages, r) == (m, pages, Fail(MemPageUnalignedAccess(r.address)))
    ensures r.address % 4096 == 0 && load(r.id, r.offset, r.length).None? ==>
              ResumeSource(load, m, pages, r) == (m, pages, Fail(SnapshotDataLoadError))
  {
  }

  // ---- What each part does, page by page ----

  ghost predicate SameOnPage(a: Mem, b: Mem, p: nat)
    requires p < |a.flags| && p < |b.flags|
  {
    a.flags[p] == b.flags[p] && PageBytes(a, p) == PageBytes(b, p)
  }

  lemma {:induction false} SetFlagsExact(m: Mem, page: u64, n: nat, flag: PageFlags)
    requires page + n <= |m.flags|
    ensures SetFlags(m, page, n, flag) == (AddFlags(m, page, page + n, flag), Pass)
    decreases n
  {
    if n == 0 {
      AddNoFlags(m, page, flag);
    } else {
      var m1 := SetFlag(m, page, flag).0;
      SetFlagsExact(m1, page + 1, n - 1, flag);
      assert AddFlags(m1, page + 1, page + n, flag).flags == AddFlags(m, page, page + n, flag).flags;
    }
  }

  ghost predicate Cleaned(m: Mem, m': Mem, page: nat, n: nat) {
    && m'.data == m.data && m'.lr == m.lr && |m'.flags| == |m.flags|
    && forall q :: 0 <= q < |m.flags| ==>
         m'.flags[q] == if page <= q < page + n then m.flags[q].Without(DIRTY) else m.flags[q]
  }

  /** `pages'` is `pages` with entries for `n` pages from `page` on, found at `offset` on. */
  ghost predicate Entered(m: Mem, pages: PageMap, pages': PageMap, page: nat, n: nat, id: Id, offset: nat) {
    && page + n <= |m.flags|
    && (forall q: u64 :: q in pages' <==> q in pages || page <= q < page + n)
    && (forall q: u64 :: page <= q < page + n ==>
          && pages'[q].id == id && pages'[q].offset == offset + 4096 * (q - page)
          && pages'[q].flag == m.flags[q].Without(DIRTY))
    && (forall q: u64 :: q in pages && !(page <= q < page + n) ==> pages'[q] == pages[q])
  }

  /** `n` tracked pages: clean, and in the map with the flags that are left. */
  lemma {:induction false} TrackRangeExact(m: Mem, pages: PageMap, page: u64, n: nat, id: Id, offset: u64)
    requires page + n <= |m.flags| && offset + 4096 * n < 0x1_0000_0000_0000_0000
    ensures var (m', pages', s) := TrackRange(m, pages, page, n, id, offset);
            s.Pass? && Cleaned(m, m', page, n) && Entered(m, pages, pages', page, n, id, offset)
    decreases n
  {
    if n > 0 {
      var m1 := ClearFlag(m, page, DIRTY).0;
      var pages1 := pages[page := Tracked(id, offset, m1.flags[page])];
      assert Plus(offset, 4096) == offset + 4096;
      TrackRangeExact(m1, pages1, page + 1, n - 1, id, Plus(offset, 4096));
    }
  }

  ghost predicate Within(address: nat, size: nat, q: nat) {
    address <= 4096 * q < address + size
  }

  /** `m'` is `m` with these pages on top, marked dirty. */
  ghost predicate Placed(m: Mem, m': Mem, address: nat, flag: PageFlags, content: seq<byte>) {
    && |m'.flags| == |m.flags| && m'.lr == m.lr
    && address + |content| <= |m.data| && m'.data[address..address + |content|] == content
    && (forall q :: 0 <= q < |m.flags| && Within(address, |content|, q) ==> m'.flags[q] == flag.Or(DIRTY))
    && (forall q :: 0 <= q < |m.flags| && !Within(address, |content|, q) ==> SameOnPage(m', m, q))
  }

  /** Whole pages put on fresh ones: exactly this content, and these flags with DIRTY. */
  lemma PutPagesExact(m: Mem, address: u64, flag: PageFlags, content: seq<byte>)
    requires address % 4096 == 0 && |content| % 4096 == 0 && content != [] && address + |content| <= |m.data|
    requires forall q: nat :: Within(address, |content|, q) ==> m.flags[q] == NONE
    ensures PutPages(m, address, flag, content).1.Pass?
    ensures Placed(m, PutPages(m, address, flag, content).0, address, flag, content)
  {
    var first, n := address / 4096, |content| / 4096;
    assert address == 4096 * first && |content| == 4096 * n;
    forall q | first <= q <= (address + |content| - 1) / 4096
      ensures !m.flags[q].executable
    {
      assert Within(address, |content|, q);
    }
    assert PagesAre(m, first, (address + |content| - 1) / 4096, false);
    var m1 := Put(m, address, content);
    assert Store(m, address, content) == (m1, Pass);
    assert m1.data[address..address + |content|] == content;
    SetFlagsExact(m1, first, n, flag);
    var m' := AddFlags(m1, first, first + n, flag);
    forall q | 0 <= q < |m.flags| && !Within(address, |content|, q)
      ensures SameOnPage(m', m, q)
    {
      TouchesAligned(first, first + n, q);
      UntouchedPage(m, address, content, q);
      assert PageBytes(m', q) == PageBytes(m1, q);
    }
    forall q | 0 <= q < |m.flags| && Within(address, |content|, q)
      ensures m'.flags[q] == flag.Or(DIRTY)
    {
      TouchesAligned(first, first + n, q);
    }
  }

  // ---- Rebuilding ----

  /** Page `q` and its entry are as in the original. */
  ghost predicate Rebuilt(m: Mem, pages: PageMap, m': Mem, pages': PageMap, q: nat)
    requires q < |m.flags| == |m'.flags|
  {
    SameOnPage(m', m, q) && q in pages && q in pages' && pages'[q] == pages[q]
  }

  ghost predicate Unchanged(m: Mem, pages: PageMap, m': Mem, pages': PageMap, q: nat)
    requires q < |m.flags| == |m'.flags|
  {
    SameOnPage(m', m, q) && (q in pages <==> q in pages') && (q in pages ==> pages'[q] == pages[q])
  }

  /** The source still has what a clean tracked page had. */
  lemma SourcePage(full: Id -> seq<byte>, m: Mem, pages: PageMap, r: SourceRun, data: seq<byte>, q: nat)
    requires Good(full, m, pages) && TrueSource(full, m, pages, r) && InSource(r, q)
    requires data == full(r.id)[r.offset..r.offset + r.length]
    ensures PageBytes(m, q) == data[4096 * q - r.address..4096 * q - r.address + 4096]
  {
    assert PageGood(full, m, pages, q);
    PieceOfPiece(full(r.id), r.offset, r.length, 4096 * q - r.address);
  }

  lemma PageRebuilt(full: Id -> seq<byte>, m: Mem, pages: PageMap, r: SourceRun, q: nat, m1: Mem, pages1: PageMap,
                    m2: Mem, m3: Mem, pages3: PageMap)
    requires Good(full, m, pages) && TrueSource(full, m, pages, r) && InSource(r, q) && |m1.flags| == |m.flags|
    requires Placed(m1, m2, r.address, r.flag, full(r.id)[r.offset..r.offset + r.length])
    requires Cleaned(m2, m3, r.address / 4096, r.length / 4096)
    requires Entered(m2, pages1, pages3, r.address / 4096, r.length / 4096, r.id, r.offset)
    ensures Rebuilt(m, pages, m3, pages3, q)
  {
    var data := full(r.id)[r.offset..r.offset + r.length];
    SourcePage(full, m, pages, r, data, q);
    PieceOfPiece(m3.data, r.address, r.length, 4096 * q - r.address);
    assert Within(r.address, |data|, q);
  }

  lemma PageUnchanged(r: SourceRun, q: nat, m1: Mem, pages1: PageMap, m2: Mem, m3: Mem, pages3: PageMap,
                      content: seq<byte>)
    requires r.address % 4096 == 0 && r.length % 4096 == 0 && |content| == r.length
    requires q < |m1.flags| && !InSource(r, q)
    requires Placed(m1, m2, r.address, r.flag, content)
    requires Cleaned(m2, m3, r.address / 4096, r.length / 4096)
    requires Entered(m2, pages1, pages3, r.address / 4096, r.length / 4096, r.id, r.offset)
    ensures Unchanged(m1, pages1, m3, pages3, q)
  {
    assert !Within(r.address, |content|, q);
    assert SameOnPage(m2, m1, q);
  }

  /** One entry of `pages_from_source`, replayed on fresh pages. */
  lemma SourceRunRebuilds(load: Loader, full: Id -> seq<byte>, m: Mem, pages: PageMap, m1: Mem, pages1: PageMap,
                          r: SourceRun)
    requires Stable(load, full) && Good(full, m, pages) && TrueSource(full, m, pages, r) && |m1.flags| == |m.flags|
    requires forall q: nat :: InSource(r, q) ==> m1.flags[q] == NONE
    ensures var (m2, pages2, s) := ResumeSource(load, m1, pages1, r);
            && s.Pass? && |m2.flags| == |m.flags| && m2.lr == m1.lr
            && (forall q: nat :: InSource(r, q) ==> q < |m.flags| && Rebuilt(m, pages, m2, pages2, q))
            && (forall q: nat :: q < |m.flags| && !InSource(r, q) ==> Unchanged(m1, pages1, m2, pages2, q))
            && (forall q :: q in pages2 ==> q in pages1 || q < |m.flags|)
  {
    hide Good, PutPages, TrackRange, RoundUp, Rebuilt, Unchanged, SameOnPage;
    var data := load(r.id, r.offset, r.length).value.0;
    assert data == full(r.id)[r.offset..r.offset + r.length];
    PutPagesExact(m1, r.address, r.flag, data);
    var m2 := PutPages(m1, r.address, r.flag, data).0;
    assert RoundUp(r.address) == r.address;
    var first, n := r.address / 4096, r.length / 4096;
    TrackRangeExact(m2, pages1, first, n, r.id, r.offset);
    var (m3, pages3, s) := TrackRange(m2, pages1, first, n, r.id, r.offset);
    assert Plus(r.offset, 0) == r.offset && Minus(r.address, r.address) == 0;
    assert ResumeSource(load, m1, pages1, r) == (m3, pages3, s);
    forall q: nat | q < |m.flags| && !InSource(r, q)
      ensures Unchanged(m1, pages1, m3, pages3, q)
    {
      PageUnchanged(r, q, m1, pages1, m2, m3, pages3, data);
    }
    forall q: nat | InSource(r, q)
      ensures q < |m.flags| && Rebuilt(m, pages, m3, pages3, q)
    {
      PageRebuilt(full, m, pages, r, q, m1, pages1, m2, m3, pages3);
    }
  }

  /** Where the replay stands after the first `k` source runs. */
  ghost predicate SourcesDone(m: Mem, pages: PageMap, runs: seq<SourceRun>, k: nat, m1: Mem, pages1: PageMap)
    requires k <= |runs|
  {
    && |m1.flags| == |m.flags|
    && (forall q: nat :: q < |m.flags| ==>
          if CoversSource(runs[..k], q) then Rebuilt(m, pages, m1, pages1, q) else Fresh(m1, q) && q !in pages1)
    && (forall q :: q in pages1 ==> q < |m.flags|)
  }

  lemma CoveredNext(runs: seq<SourceRun>, k: nat, q: nat)
    requires k < |runs|
    ensures CoversSource(runs[..k + 1], q) <==> CoversSource(runs[..k], q) || InSource(runs[k], q)
  {
    if InSource(runs[k], q) {
      assert InSource(runs[..k + 1][k], q);
    }
    if CoversSource(runs[..k], q) {
      var j :| 0 <= j < k && InSource(runs[..k][j], q);
      assert InSource(runs[..k + 1][j], q);
    }
    if CoversSource(runs[..k + 1], q) && !InSource(runs[k], q) {
      var j :| 0 <= j < k + 1 && InSource(runs[..k + 1][j], q);
      assert InSource(runs[..k][j], q);
    }
  }

  /** Runs do not overlap. */
  lemma NotYetCovered(full: Id -> seq<byte>, m: Mem, pages: PageMap, runs: seq<SourceRun>, n: nat, k: nat, q: nat)
    requires SourceList(full, m, pages, runs, n) && k < |runs| && InSource(runs[k], q)
    ensures !CoversSource(runs[..k], q) && q < |m.flags|
  {
  }

  lemma KeptPage(m: Mem, pages: PageMap, m1: Mem, pages1: PageMap, m2: Mem, pages2: PageMap, q: nat)
    requires q < |m.flags| == |m1.flags| == |m2.flags| && Unchanged(m1, pages1, m2, pages2, q)
    ensures Rebuilt(m, pages, m1, pages1, q) ==> Rebuilt(m, pages, m2, pages2, q)
    ensures Fresh(m1, q) && q !in pages1 ==> Fresh(m2, q) && q !in pages2
  {
    if Fresh(m1, q) {
      forall i | 4096 * q <= i < 4096 * q + 4096
        ensures m2.data[i] == 0
      {
        assert PageBytes(m2, q)[i - 4096 * q] == PageBytes(m1, q)[i - 4096 * q];
      }
    }
  }

  lemma OneMoreSource(load: Loader, full: Id -> seq<byte>, m: Mem, pages: PageMap, runs: seq<SourceRun>, n: nat,
                      k: nat, m1: Mem, pages1: PageMap)
    requires Stable(load, full) && Good(full, m, pages) && SourceList(full, m, pages, runs, n)
    requires k < |runs| && SourcesDone(m, pages, runs, k, m1, pages1)
    ensures var (m2, pages2, s) := ResumeSource(load, m1, pages1, runs[k]);
            s.Pass? && m2.lr == m1.lr && SourcesDone(m, pages, runs, k + 1, m2, pages2)
  {
    hide Good, Stable, CoversSource, ResumeSource, Rebuilt, Unchanged, InSource, Fresh;
    var r := runs[k];
    forall q: nat | InSource(r, q)
      ensures q < |m1.flags| && m1.flags[q] == NONE
    {
      NotYetCovered(full, m, pages, runs, n, k, q);
      FreshFlags(m1, q);
    }
    SourceRunRebuilds(load, full, m, pages, m1, pages1, r);
    var (m2, pages2, s) := ResumeSource(load, m1, pages1, r);
    forall q: nat | q < |m.flags|
      ensures if CoversSource(runs[..k + 1], q) then Rebuilt(m, pages, m2, pages2, q) else Fresh(m2, q) && q !in pages2
    {
      CoveredNext(runs, k, q);
      if !InSource(r, q) {
        KeptPage(m, pages, m1, pages1, m2, pages2, q);
      }
    }
  }

  lemma FreshFlags(m: Mem, q: nat)
    requires q < |m.flags| && Fresh(m, q)
    ensures m.flags[q] == NONE
  {
  }

  lemma {:induction false} SourcesRebuild(load: Loader, full: Id -> seq<byte>, m: Mem, pages: PageMap,
                                          runs: seq<SourceRun>, n: nat, k: nat, m1: Mem, pages1: PageMap)
    requires Stable(load, full) && Good(full, m, pages) && SourceList(full, m, pages, runs, n)
    requires k <= |runs| && SourcesDone(m, pages, runs, k, m1, pages1)
    ensures var (m2, pages2, s) := ResumeSources(load, m1, pages1, runs[k..]);
            s.Pass? && m2.lr == m1.lr && SourcesDone(m, pages, runs, |runs|, m2, pages2)
    decreases |runs| - k
  {
    hide Good, Stable, SourceList, ResumeSource, SourcesDone;
    if k < |runs| {
      OneMoreSource(load, full, m, pages, runs, n, k, m1, pages1);
      var (m2, pages2, s) := ResumeSource(load, m1, pages1, runs[k]);
      assert runs[k..][1..] == runs[k + 1..];
      SourcesRebuild(load, full, m, pages, runs, n, k + 1, m2, pages2);
    }
  }

  // ---- Dirty pages ----

  /** Where the replay stands after the first `k` dirty runs, on top of `m1`. */
  ghost predicate DirtiesDone(m: Mem, runs: seq<DirtyRun>, k: nat, m1: Mem, m2: Mem)
    requires k <= |runs|
  {
    && |m2.flags| == |m1.flags| == |m.flags| && m2.lr == m1.lr
    && (forall q: nat :: q < |m.flags| ==>
          if CoversDirty(runs[..k], q) then SameOnPage(m2, m, q) else SameOnPage(m2, m1, q))
  }

  lemma CoveredDirtyNext(runs: seq<DirtyRun>, k: nat, q: nat)
    requires k < |runs|
    ensures CoversDirty(runs[..k + 1], q) <==> CoversDirty(runs[..k], q) || InDirty(runs[k], q)
  {
    if InDirty(runs[k], q) {
      assert InDirty(runs[..k + 1][k], q);
    }
    if CoversDirty(runs[..k], q) {
      var j :| 0 <= j < k && InDirty(runs[..k][j], q);
      assert InDirty(runs[..k + 1][j], q);
    }
    if CoversDirty(runs[..k + 1], q) && !InDirty(runs[k], q) {
      var j :| 0 <= j < k + 1 && InDirty(runs[..k + 1][j], q);
      assert InDirty(runs[..k][j], q);
    }
  }

  lemma NotYetDirty(m: Mem, runs: seq<DirtyRun>, n: nat, k: nat, q: nat)
    requires DirtyList(m, runs, n) && k < |runs| && InDirty(runs[k], q)
    ensures !CoversDirty(runs[..k], q) && q < |m.flags|
  {
  }

  /** A dirty run put on fresh pages rebuilds them. */
  lemma DirtyRunRebuilds(m: Mem, m1: Mem, r: DirtyRun)
    requires TrueDirty(m, r) && |m1.flags| == |m.flags|
    requires forall q: nat :: InDirty(r, q) ==> m1.flags[q] == NONE
    ensures var (m2, s) := PutPages(m1, r.address, r.flag, r.content);
            && s.Pass? && |m2.flags| == |m.flags| && m2.lr == m1.lr
            && forall q: nat :: q < |m.flags| ==> if InDirty(r, q) then SameOnPage(m2, m, q) else SameOnPage(m2, m1, q)
  {
    hide PutPages;
    PutPagesExact(m1, r.address, r.flag, r.content);
    var m2 := PutPages(m1, r.address, r.flag, r.content).0;
    forall q: nat | q < |m.flags| && InDirty(r, q)
      ensures SameOnPage(m2, m, q)
    {
      assert Within(r.address, |r.content|, q);
      PieceOfPiece(m.data, r.address, |r.content|, 4096 * q - r.address);
      PieceOfPiece(m2.data, r.address, |r.content|, 4096 * q - r.address);
    }
  }

  ghost predicate OnBlank(runs: seq<DirtyRun>, m: Mem) {
    forall j, q: nat :: 0 <= j < |runs| && InDirty(runs[j], q) ==> q < |m.flags| && m.flags[q] == NONE
  }

  lemma OneMoreDirty(m: Mem, runs: seq<DirtyRun>, n: nat, k: nat, m1: Mem, m2: Mem)
    requires DirtyList(m, runs, n) && k < |runs| && DirtiesDone(m, runs, k, m1, m2)
    requires OnBlank(runs, m1)
    ensures var (m3, s) := PutPages(m2, runs[k].address, runs[k].flag, runs[k].content);
            s.Pass? && DirtiesDone(m, runs, k + 1, m1, m3)
  {
    hide CoversDirty, PutPages, InDirty, TrueDirty, PageBytes;
    var r := runs[k];
    forall q: nat | InDirty(r, q)
      ensures q < |m2.flags| && m2.flags[q] == NONE
    {
      NotYetDirty(m, runs, n, k, q);
    }
    DirtyRunRebuilds(m, m2, r);
    forall q: nat | q < |m.flags|
      ensures var m3 := PutPages(m2, r.address, r.flag, r.content).0;
              if CoversDirty(runs[..k + 1], q) then SameOnPage(m3, m, q) else SameOnPage(m3, m1, q)
    {
      CoveredDirtyNext(runs, k, q);
    }
  }

  lemma {:induction false} DirtiesRebuild(m: Mem, runs: seq<DirtyRun>, n: nat, k: nat, m1: Mem, m2: Mem)
    requires DirtyList(m, runs, n) && k <= |runs| && DirtiesDone(m, runs, k, m1, m2)
    requires OnBlank(runs, m1)
    ensures var (m3, s) := ResumeDirty(m2, runs[k..]); s.Pass? && DirtiesDone(m, runs, |runs|, m1, m3)
    decreases |runs| - k
  {
    hide DirtyList, PutPages, DirtiesDone, OnBlank;
    if k < |runs| {
      OneMoreDirty(m, runs, n, k, m1, m2);
      var m3 := PutPages(m2, runs[k].address, runs[k].flag, runs[k].content).0;
      assert runs[k..][1..] == runs[k + 1..];
      DirtiesRebuild(m, runs, n, k + 1, m1, m3);
    }
  }

  // ---- The round trip ----

  /** The entries of the pages that are still clean. */
  ghost function CleanPart(m: Mem, pages: PageMap): PageMap {
    map p | p in pages && p < |m.flags| && !m.flags[p].dirty :: pages[p]
  }

  /** The memory part of `make_snapshot`. */
  ghost predicate Shot(m: Mem, pages: PageMap, keys: seq<u64>, s: Snapshot2) {
    && SortedKeys(pages, keys)
    && SourceRuns(m, pages, keys) == Ok(s.pagesFromSource)
    && s.dirtyPages == DirtyRuns(m, |m.flags|)
    && s.loadReservationAddress == m.lr
  }

  lemma PagesDetermine(a: Mem, b: Mem)
    requires |a.flags| == |b.flags| && forall q :: 0 <= q < |a.flags| ==> SameOnPage(a, b, q)
    ensures a.data == b.data && a.flags == b.flags
  {
    forall q | 0 <= q < |a.flags|
      ensures a.flags[q] == b.flags[q]
    {
      assert SameOnPage(a, b, q);
    }
    forall i | 0 <= i < |a.data|
      ensures a.data[i] == b.data[i]
    {
      assert SameOnPage(a, b, i / 4096);
      assert PageBytes(a, i / 4096)[i % 4096] == PageBytes(b, i / 4096)[i % 4096];
    }
  }

  /** Source runs leave the dirty pages blank for the dirty runs. */
  lemma DirtyOnBlank(m: Mem, pages: PageMap, keys: seq<u64>, s: Snapshot2, m1: Mem, pages1: PageMap)
    requires SourcesDone(m, pages, s.pagesFromSource, |s.pagesFromSource|, m1, pages1)
    requires forall q: nat :: CoversSource(s.pagesFromSource, q) ==> q < |m.flags| && !m.flags[q].dirty
    requires DirtyList(m, s.dirtyPages, |m.flags|)
    ensures OnBlank(s.dirtyPages, m1)
  {
    hide CoversSource, Rebuilt;
    assert s.pagesFromSource[..|s.pagesFromSource|] == s.pagesFromSource;
    forall j, q: nat | 0 <= j < |s.dirtyPages| && InDirty(s.dirtyPages[j], q)
      ensures q < |m1.flags| && m1.flags[q] == NONE
    {
      assert TrueDirty(m, s.dirtyPages[j]);
    }
  }

  lemma FinalPage(full: Id -> seq<byte>, m: Mem, pages: PageMap, s: Snapshot2, keys: seq<u64>, m1: Mem,
                  pages1: PageMap, m2: Mem, q: nat)
    requires Good(full, m, pages) && q < |m.flags| && SortedKeys(pages, keys)
    requires SourcesDone(m, pages, s.pagesFromSource, |s.pagesFromSource|, m1, pages1)
    requires CoversSource(s.pagesFromSource, q) <==> q in keys && !m.flags[q].dirty
    requires DirtiesDone(m, s.dirtyPages, |s.dirtyPages|, m1, m2)
    requires CoversDirty(s.dirtyPages, q) <==> m.flags[q].dirty
    ensures SameOnPage(m2, m, q)
    ensures q in pages1 <==> q in pages && !m.flags[q].dirty
    ensures q in pages1 ==> pages1[q] == pages[q]
  {
    hide CoversSource, CoversDirty;
    assert s.pagesFromSource[..|s.pagesFromSource|] == s.pagesFromSource;
    assert s.dirtyPages[..|s.dirtyPages|] == s.dirtyPages;
    assert PageGood(full, m, pages, q);
    if !CoversSource(s.pagesFromSource, q) && !m.flags[q].dirty {
      assert Fresh(m1, q) && Fresh(m, q);
      assert PageBytes(m1, q) == PageBytes(m, q);
    }
  }

  /** A snapshot of a good memory, resumed on a fresh one of the same size, gives back every byte,
      every flag and the reservation, and a page map that is good for it. */
  lemma ResumeRebuilds(load: Loader, full: Id -> seq<byte>, m: Mem, pages: PageMap, keys: seq<u64>, s: Snapshot2,
                       m0: Mem)
    requires Stable(load, full) && Good(full, m, pages) && Shot(m, pages, keys, s)
    requires |m0.flags| == |m.flags| && forall q :: 0 <= q < |m0.flags| ==> Fresh(m0, q)
    ensures ResumeAll(load, m0, s) == (m, CleanPart(m, pages), Pass)
  {
    hide Good, PageGood, TrueSource, TrueDirty, InSource, InDirty, ResumeSources, ResumeDirty, SourcesDone, DirtiesDone,
      CoversSource, CoversDirty, OnBlank, SameOnPage, DirtyList, SourceList;
    assert SmallSource(full);
    SourceRunsTrue(full, m, pages, keys);
    DirtyRunsTrue(m, |m.flags|);
    var runs := s.pagesFromSource;
    NothingDone(m, pages, runs, m0);
    SourcesRebuild(load, full, m, pages, runs, EndOf(keys), 0, m0, map[]);
    assert runs[0..] == runs && s.dirtyPages[0..] == s.dirtyPages;
    var (m1, pages1, _) := ResumeSources(load, m0, map[], runs);
    DirtyOnBlank(m, pages, keys, s, m1, pages1);
    NothingDirtyDone(m, s.dirtyPages, m1, pages, runs, pages1);
    DirtiesRebuild(m, s.dirtyPages, |m.flags|, 0, m1, m1);
    var (m2, _) := ResumeDirty(m1, s.dirtyPages);
    Sizes(m, s, m1, pages, pages1, m2);
    forall q | 0 <= q < |m.flags|
      ensures SameOnPage(m2, m, q)
      ensures q in pages1 <==> q in pages && !m.flags[q].dirty
      ensures q in pages1 ==> pages1[q] == pages[q]
    {
      FinalPage(full, m, pages, s, keys, m1, pages1, m2, q);
    }
    PagesDetermine(m2, m);
    assert pages1 == CleanPart(m, pages);
  }

  lemma Sizes(m: Mem, s: Snapshot2, m1: Mem, pages: PageMap, pages1: PageMap, m2: Mem)
    requires SourcesDone(m, pages, s.pagesFromSource, |s.pagesFromSource|, m1, pages1)
    requires DirtiesDone(m, s.dirtyPages, |s.dirtyPages|, m1, m2)
    ensures |m2.flags| == |m1.flags| == |m.flags| && forall q :: q in pages1 ==> q < |m.flags|
  {
  }

  lemma NothingDone(m: Mem, pages: PageMap, runs: seq<SourceRun>, m0: Mem)
    requires |m0.flags| == |m.flags| && forall q :: 0 <= q < |m0.flags| ==> Fresh(m0, q)
    ensures SourcesDone(m, pages, runs, 0, m0, map[])
  {
  }

  lemma NothingDirtyDone(m: Mem, runs: seq<DirtyRun>, m1: Mem, pages: PageMap, sources: seq<SourceRun>, pages1: PageMap)
    requires SourcesDone(m, pages, sources, |sources|, m1, pages1)
    ensures DirtiesDone(m, runs, 0, m1, m1)
  {
  }

  // ---- Stability ----

  function Init(a: seq<u64>): seq<u64>
    requires a != []
  {
    a[..|a| - 1]
  }

  /** Two increasing lists of the same keys are one list. */
  lemma {:induction false} SortedUnique(a: seq<u64>, b: seq<u64>)
    requires Ascending(a) && Ascending(b) && forall k :: k in a <==> k in b
    ensures a == b
    decreases |a|
  {
    if b != [] {
      Inhabited(b, a);
    }
    if a != [] {
      Inhabited(a, b);
      SameInit(a, b);
      SortedUnique(Init(a), Init(b));
      assert a == Init(a) + [a[|a| - 1]] && b == Init(b) + [b[|b| - 1]];
    }
  }

  lemma Inhabited(a: seq<u64>, b: seq<u64>)
    requires a != [] && forall k :: k in a <==> k in b
    ensures b != []
  {
    assert a[0] in a;
    assert a[0] in b;
  }

  lemma SameInit(a: seq<u64>, b: seq<u64>)
    requires a != [] && b != [] && Ascending(a) && Ascending(b) && forall k :: k in a <==> k in b
    ensures a[|a| - 1] == b[|b| - 1]
    ensures forall k :: k in Init(a) <==> k in Init(b)
  {
    var x, y := a[|a| - 1], b[|b| - 1];
    assert x in b && y in a;
    forall k | true
      ensures k in Init(a) <==> k in Init(b)
    {
      InitHas(a, k);
      InitHas(b, k);
    }
  }

  lemma InitHas(a: seq<u64>, k: u64)
    requires a != [] && Ascending(a)
    ensures k in Init(a) <==> k in a && k != a[|a| - 1]
  {
    var last := a[|a| - 1];
    assert a == Init(a) + [last];
    if k in Init(a) {
      var i :| 0 <= i < |Init(a)| && Init(a)[i] == k;
      assert a[i] == k;
    }
  }

  ghost predicate KeysWithin(m: Mem, keys: seq<u64>) {
    forall i :: 0 <= i < |keys| ==> keys[i] < |m.flags|
  }

  ghost function Clean(m: Mem, keys: seq<u64>): (r: seq<u64>)
    requires KeysWithin(m, keys)
    ensures KeysWithin(m, r)
    decreases |keys|
  {
    if keys == [] then []
    else
      var page := keys[|keys| - 1];
      if m.flags[page].dirty then Clean(m, keys[..|keys| - 1]) else Clean(m, keys[..|keys| - 1]) + [page]
  }

  lemma {:induction false} CleanHas(m: Mem, keys: seq<u64>, k: u64)
    requires KeysWithin(m, keys)
    ensures k in Clean(m, keys) <==> k in keys && k < |m.flags| && !m.flags[k].dirty
    decreases |keys|
  {
    if keys != [] {
      CleanHas(m, keys[..|keys| - 1], k);
      assert keys == keys[..|keys| - 1] + [keys[|keys| - 1]];
    }
  }

  lemma {:induction false} CleanAscends(m: Mem, keys: seq<u64>)
    requires Ascending(keys) && KeysWithin(m, keys)
    ensures Ascending(Clean(m, keys))
    decreases |keys|
  {
    if keys != [] {
      var init := keys[..|keys| - 1];
      CleanAscends(m, init);
      forall i | 0 <= i < |Clean(m, init)|
        ensures Clean(m, init)[i] < keys[|keys| - 1]
      {
        CleanHas(m, init, Clean(m, init)[i]);
      }
    }
  }

  /** Leaving the dirty pages out of the map beforehand makes no difference. */
  lemma {:induction false} RunsOfClean(m: Mem, pages: PageMap, pages1: PageMap, keys: seq<u64>)
    requires KeysWithin(m, keys) && forall k :: k in keys ==> k in pages
    requires forall k :: k in pages && k < |m.flags| && !m.flags[k].dirty ==> k in pages1 && pages1[k] == pages[k]
    ensures forall k :: k in Clean(m, keys) ==> k in pages1
    ensures SourceRuns(m, pages1, Clean(m, keys)) == SourceRuns(m, pages, keys)
    decreases |keys|
  {
    hide AddSource;
    if keys != [] {
      var init, page := keys[..|keys| - 1], keys[|keys| - 1];
      assert keys == init + [page];
      RunsOfClean(m, pages, pages1, init);
      assert page in pages;
      if !m.flags[page].dirty {
        assert Clean(m, keys)[..|Clean(m, keys)| - 1] == Clean(m, init);
      }
    }
  }

  /** A snapshot taken right after resuming is the snapshot resumed from, merged runs included. */
  lemma SnapshotIsStable(full: Id -> seq<byte>, m: Mem, pages: PageMap, keys: seq<u64>, s: Snapshot2,
                         keys': seq<u64>, s': Snapshot2)
    requires Good(full, m, pages) && Shot(m, pages, keys, s)
    requires Shot(m, CleanPart(m, pages), keys', s')
    ensures s'.pagesFromSource == s.pagesFromSource && s'.dirtyPages == s.dirtyPages
    ensures s'.loadReservationAddress == s.loadReservationAddress
  {
    hide PageGood, SourceRuns, DirtyRuns;
    forall i | 0 <= i < |keys|
      ensures keys[i] < |m.flags|
    {
      assert keys[i] in pages;
    }
    CleanAscends(m, keys);
    forall k
      ensures k in Clean(m, keys) <==> k in keys'
    {
      CleanHas(m, keys, k);
    }
    SortedUnique(Clean(m, keys), keys');
    RunsOfClean(m, pages, CleanPart(m, pages), keys);
  }

  /** The resumed context is good, so the next history starts where this one ended. */
  lemma ResumedIsGood(full: Id -> seq<byte>, m: Mem, pages: PageMap)
    requires Good(full, m, pages)
    ensures Good(full, m, CleanPart(m, pages))
  {
    forall p | 0 <= p < |m.flags|
      ensures PageGood(full, m, CleanPart(m, pages), p)
    {
      assert PageGood(full, m, pages, p);
    }
  }
}
