/** What a snapshot holds: every dirty page, and where to find every tracked page, with adjacent
    pages merged into runs. */
module Snapshot {
  import opened Words
  import opened Outcomes
  import opened Pages
  import opened Exec
  import opened Tracking

  datatype SourceRun = SourceRun(address: u64, flag: PageFlags, id: Id, offset: u64, length: u64)

  datatype DirtyRun = DirtyRun(address: u64, flag: PageFlags, content: seq<byte>)

  datatype Snapshot2 = Snapshot2(
    pagesFromSource: seq<SourceRun>,
    dirtyPages: seq<DirtyRun>,
    version: nat,
    registers: RegFile,
    pc: u64,
    cycles: u64,
    maxCycles: u64,
    loadReservationAddress: u64)

  // ---- Collecting ----

  /** A page goes to the last run if it continues it with the same flags. */
  function AddDirty(runs: seq<DirtyRun>, address: u64, flag: PageFlags, data: seq<byte>): seq<DirtyRun> {
    var n := |runs|;
    if n > 0 && runs[n - 1].address + |runs[n - 1].content| == address && runs[n - 1].flag == flag then
      runs[..n - 1] + [runs[n - 1].(content := runs[n - 1].content + data)]
    else
      runs + [DirtyRun(address, flag, data)]
  }

  /** The dirty pages below page `n`. */
  function DirtyRuns(m: Mem, n: nat): seq<DirtyRun>
    requires n <= |m.flags|
  {
    if n == 0 then []
    else if m.flags[n - 1].dirty then AddDirty(DirtyRuns(m, n - 1), 4096 * (n - 1), m.flags[n - 1], PageBytes(m, n - 1))
    else DirtyRuns(m, n - 1)
  }

  /** A page goes to the last run if both its address and its place in the source continue it. */
  function AddSource(runs: seq<SourceRun>, address: u64, t: Tracked): seq<SourceRun> {
    var n := |runs|;
    if n > 0 && runs[n - 1].address + runs[n - 1].length == address && runs[n - 1].flag == t.flag
       && runs[n - 1].id == t.id && runs[n - 1].offset + runs[n - 1].length == t.offset then
      runs[..n - 1] + [runs[n - 1].(length := Plus(runs[n - 1].length, 4096))]
    else
      runs + [SourceRun(address, t.flag, t.id, t.offset, 4096)]
  }

  /** The pages of `keys`, leaving out those written since. */
  function SourceRuns(m: Mem, pages: PageMap, keys: seq<u64>): Result<seq<SourceRun>>
    requires forall k :: k in keys ==> k in pages
    decreases |keys|
  {
    if keys == [] then Ok([])
    else
      var page := keys[|keys| - 1];
      match SourceRuns(m, pages, keys[..|keys| - 1])
      case Err(e) => Err(e)
      case Ok(runs) =>
        match FetchFlag(m, page)
        case Err(e) => Err(e)
        case Ok(flag) => if flag.dirty then Ok(runs) else Ok(AddSource(runs, Wrap(4096 * page), pages[page]))
  }

  /** `keys` are the keys of `pages` in increasing order. */
  ghost predicate SortedKeys(pages: PageMap, keys: seq<u64>) {
    && Ascending(keys)
    && (forall k :: k in keys <==> k in pages)
  }

  ghost predicate Ascending(keys: seq<u64>) {
    forall i, j :: 0 <= i < j < |keys| ==> keys[i] < keys[j]
  }

  // ---- Dirty runs are true ----

  predicate InDirty(r: DirtyRun, q: nat) {
    r.address <= 4096 * q < r.address + |r.content|
  }

  ghost predicate TrueDirty(m: Mem, r: DirtyRun) {
    && r.address % 4096 == 0 && |r.content| % 4096 == 0 && r.content != []
    && r.address + |r.content| <= |m.data| && r.content == m.data[r.address..r.address + |r.content|]
    && r.flag.dirty
    && forall q: nat :: InDirty(r, q) ==> m.flags[q] == r.flag
  }

  ghost predicate CoversDirty(runs: seq<DirtyRun>, q: nat) {
    exists j :: 0 <= j < |runs| && InDirty(runs[j], q)
  }

  /** All runs are true, they follow each other without overlap, and end by page `n`. */
  ghost predicate DirtyList(m: Mem, runs: seq<DirtyRun>, n: nat) {
    && (forall j :: 0 <= j < |runs| ==> TrueDirty(m, runs[j]) && runs[j].address + |runs[j].content| <= 4096 * n)
    && (forall i, j :: 0 <= i < j < |runs| ==> runs[i].address + |runs[i].content| <= runs[j].address)
  }

  lemma OneDirty(m: Mem, p: nat)
    requires p < |m.flags| && m.flags[p].dirty
    ensures var r := DirtyRun(4096 * p, m.flags[p], PageBytes(m, p));
            TrueDirty(m, r) && forall q: nat :: InDirty(r, q) <==> q == p
  {
  }

  lemma LongerDirty(m: Mem, r: DirtyRun, p: nat)
    requires TrueDirty(m, r) && p < |m.flags| && r.address + |r.content| == 4096 * p && m.flags[p] == r.flag
    ensures var r' := r.(content := r.content + PageBytes(m, p));
            TrueDirty(m, r') && forall q: nat :: InDirty(r', q) <==> InDirty(r, q) || q == p
  {
    var r' := r.(content := r.content + PageBytes(m, p));
    assert m.data[r.address..4096 * p + 4096] == m.data[r.address..4096 * p] + m.data[4096 * p..4096 * p + 4096];
    forall q: nat | InDirty(r', q)
      ensures InDirty(r, q) || q == p
    {
    }
  }

  lemma AddDirtyKeeps(m: Mem, runs: seq<DirtyRun>, p: nat)
    requires p < |m.flags| && m.flags[p].dirty && DirtyList(m, runs, p)
    ensures var runs' := AddDirty(runs, 4096 * p, m.flags[p], PageBytes(m, p));
            && DirtyList(m, runs', p + 1)
            && forall q: nat :: CoversDirty(runs', q) <==> CoversDirty(runs, q) || q == p
  {
    hide TrueDirty, InDirty;
    var runs' := AddDirty(runs, 4096 * p, m.flags[p], PageBytes(m, p));
    var n := |runs|;
    OneDirty(m, p);
    if n > 0 && runs[n - 1].address + |runs[n - 1].content| == 4096 * p && runs[n - 1].flag == m.flags[p] {
      LongerDirty(m, runs[n - 1], p);
    }
    assert forall j :: 0 <= j < n - 1 ==> runs'[j] == runs[j];
    forall q: nat
      ensures CoversDirty(runs', q) <==> CoversDirty(runs, q) || q == p
    {
      if CoversDirty(runs, q) {
        var j :| 0 <= j < n && InDirty(runs[j], q);
        assert InDirty(runs'[j], q);
      }
      if q == p {
        assert InDirty(runs'[|runs'| - 1], q);
      }
      if CoversDirty(runs', q) && q != p {
        var j :| 0 <= j < |runs'| && InDirty(runs'[j], q);
        assert InDirty(runs[j], q);
      }
    }
  }

  /** The dirty runs are the dirty pages, each once, with their bytes and flags. */
  lemma {:induction false} DirtyRunsTrue(m: Mem, n: nat)
    requires n <= |m.flags|
    ensures DirtyList(m, DirtyRuns(m, n), n)
    ensures forall q: nat :: CoversDirty(DirtyRuns(m, n), q) <==> q < n && m.flags[q].dirty
  {
    hide DirtyList, CoversDirty;
    if n == 0 {
      NoDirty(m);
    } else {
      DirtyRunsTrue(m, n - 1);
      if m.flags[n - 1].dirty {
        AddDirtyKeeps(m, DirtyRuns(m, n - 1), n - 1);
      } else {
        DirtyListLater(m, DirtyRuns(m, n - 1), n - 1);
      }
    }
  }

  lemma NoDirty(m: Mem)
    ensures DirtyList(m, [], 0) && forall q: nat :: !CoversDirty([], q)
  {
  }

  lemma DirtyListLater(m: Mem, runs: seq<DirtyRun>, n: nat)
    requires DirtyList(m, runs, n)
    ensures DirtyList(m, runs, n + 1)
  {
  }

  /** No two neighbours could be one run. */
  ghost predicate DirtyMerged(runs: seq<DirtyRun>) {
    forall j :: 0 <= j < |runs| - 1 ==>
      !(runs[j].address + |runs[j].content| == runs[j + 1].address && runs[j].flag == runs[j + 1].flag)
  }

  lemma {:induction false} DirtyRunsMerged(m: Mem, n: nat)
    requires n <= |m.flags|
    ensures DirtyMerged(DirtyRuns(m, n))
  {
    if n > 0 {
      DirtyRunsMerged(m, n - 1);
      if m.flags[n - 1].dirty {
        AddDirtyMerges(DirtyRuns(m, n - 1), 4096 * (n - 1), m.flags[n - 1], PageBytes(m, n - 1));
      }
    }
  }

  lemma AddDirtyMerges(runs: seq<DirtyRun>, address: u64, flag: PageFlags, data: seq<byte>)
    requires DirtyMerged(runs)
    ensures DirtyMerged(AddDirty(runs, address, flag, data))
  {
    var runs' := AddDirty(runs, address, flag, data);
    forall j | 0 <= j < |runs'| - 1
      ensures !(runs'[j].address + |runs'[j].content| == runs'[j + 1].address && runs'[j].flag == runs'[j + 1].flag)
    {
      if j + 1 < |runs| {
        assert runs'[j] == runs[j];
      }
    }
  }

  // ---- Source runs are true ----

  predicate InSource(r: SourceRun, q: nat) {
    r.address <= 4096 * q < r.address + r.length
  }

  /** The run names, for each of its pages, the place that the page map names. */
  ghost predicate TrueSource(full: Id -> seq<byte>, m: Mem, pages: PageMap, r: SourceRun) {
    && r.address % 4096 == 0 && r.length % 4096 == 0 && r.length > 0
    && r.address + r.length <= |m.data| && r.offset + r.length <= |full(r.id)|
    && forall q: nat :: InSource(r, q) ==>
         && q in pages && !m.flags[q].dirty && m.flags[q] == r.flag
         && pages[q].flag == r.flag && pages[q].id == r.id && pages[q].offset == r.offset + (4096 * q - r.address)
  }

  ghost predicate CoversSource(runs: seq<SourceRun>, q: nat) {
    exists j :: 0 <= j < |runs| && InSource(runs[j], q)
  }

  ghost predicate SourceList(full: Id -> seq<byte>, m: Mem, pages: PageMap, runs: seq<SourceRun>, n: nat) {
    && (forall j :: 0 <= j < |runs| ==>
          TrueSource(full, m, pages, runs[j]) && runs[j].address + runs[j].length <= 4096 * n)
    && (forall i, j :: 0 <= i < j < |runs| ==> runs[i].address + runs[i].length <= runs[j].address)
  }

  lemma OneSource(full: Id -> seq<byte>, m: Mem, pages: PageMap, p: u64)
    requires Good(full, m, pages) && p in pages && !m.flags[p].dirty && |full(pages[p].id)| < 0x1_0000_0000_0000_0000
    ensures var r := SourceRun(4096 * p, pages[p].flag, pages[p].id, pages[p].offset, 4096);
            TrueSource(full, m, pages, r) && forall q: nat :: InSource(r, q) <==> q == p
  {
    assert PageGood(full, m, pages, p);
  }

  lemma LongerSource(full: Id -> seq<byte>, m: Mem, pages: PageMap, r: SourceRun, p: u64)
    requires Good(full, m, pages) && p in pages && !m.flags[p].dirty && |full(pages[p].id)| < 0x1_0000_0000_0000_0000
    requires TrueSource(full, m, pages, r) && r.address + r.length == 4096 * p
    requires pages[p].flag == r.flag && pages[p].id == r.id && pages[p].offset == r.offset + r.length
    ensures var r' := r.(length := Plus(r.length, 4096));
            && r'.length == r.length + 4096
            && TrueSource(full, m, pages, r') && forall q: nat :: InSource(r', q) <==> InSource(r, q) || q == p
  {
    assert PageGood(full, m, pages, p);
    var r' := r.(length := Plus(r.length, 4096));
    assert r'.length == r.length + 4096;
    forall q: nat | InSource(r', q)
      ensures InSource(r, q) || q == p
    {
    }
  }

  lemma AddSourceKeeps(full: Id -> seq<byte>, m: Mem, pages: PageMap, runs: seq<SourceRun>, p: u64)
    requires Good(full, m, pages) && p in pages && !m.flags[p].dirty && |full(pages[p].id)| < 0x1_0000_0000_0000_0000
    requires SourceList(full, m, pages, runs, p)
    ensures var runs' := AddSource(runs, 4096 * p, pages[p]);
            && SourceList(full, m, pages, runs', p + 1)
            && forall q: nat :: CoversSource(runs', q) <==> CoversSource(runs, q) || q == p
  {
    hide TrueSource, InSource, PageGood;
    var t := pages[p];
    var runs' := AddSource(runs, 4096 * p, t);
    var n := |runs|;
    OneSource(full, m, pages, p);
    if n > 0 && runs[n - 1].address + runs[n - 1].length == 4096 * p && runs[n - 1].flag == t.flag
       && runs[n - 1].id == t.id && runs[n - 1].offset + runs[n - 1].length == t.offset {
      LongerSource(full, m, pages, runs[n - 1], p);
    }
    assert forall j :: 0 <= j < n - 1 ==> runs'[j] == runs[j];
    forall q: nat
      ensures CoversSource(runs', q) <==> CoversSource(runs, q) || q == p
    {
      if CoversSource(runs, q) {
        var j :| 0 <= j < n && InSource(runs[j], q);
        assert InSource(runs'[j], q);
      }
      if q == p {
        assert InSource(runs'[|runs'| - 1], q);
      }
      if CoversSource(runs', q) && q != p {
        var j :| 0 <= j < |runs'| && InSource(runs'[j], q);
        assert InSource(runs[j], q);
      }
    }
  }

  ghost predicate SmallSource(full: Id -> seq<byte>) {
    forall id: Id :: |full(id)| < 0x1_0000_0000_0000_0000
  }

  /** Just past the last page of `keys`. */
  function EndOf(keys: seq<u64>): nat {
    if keys == [] then 0 else var last: nat := keys[|keys| - 1]; last + 1
  }

  /** The source runs are the tracked pages that are still clean, each once. */
  lemma {:induction false} SourceRunsTrue(full: Id -> seq<byte>, m: Mem, pages: PageMap, keys: seq<u64>)
    requires Good(full, m, pages) && SmallSource(full) && Ascending(keys) && forall k :: k in keys ==> k in pages
    ensures SourceRuns(m, pages, keys).Ok?
    ensures SourceList(full, m, pages, SourceRuns(m, pages, keys).value, EndOf(keys))
    ensures forall q: nat ::
              CoversSource(SourceRuns(m, pages, keys).value, q) <==> q in keys && q < |m.flags| && !m.flags[q].dirty
    decreases |keys|
  {
    hide SourceList, CoversSource, PageGood, AddSource;
    if keys == [] {
      NoSource(full, m, pages);
    } else {
      var init, page := keys[..|keys| - 1], keys[|keys| - 1];
      SourceRunsTrue(full, m, pages, init);
      assert keys == init + [page];
      OneMoreKey(full, m, pages, init, page, SourceRuns(m, pages, init).value);
    }
  }

  /** The last key's page goes in, unless it is dirty. */
  lemma OneMoreKey(full: Id -> seq<byte>, m: Mem, pages: PageMap, init: seq<u64>, page: u64, runs: seq<SourceRun>)
    requires Good(full, m, pages) && SmallSource(full) && Ascending(init + [page])
    requires page in pages && (forall k :: k in init ==> k in pages) && SourceRuns(m, pages, init) == Ok(runs)
    requires SourceList(full, m, pages, runs, EndOf(init))
    requires forall q: nat :: CoversSource(runs, q) <==> q in init && q < |m.flags| && !m.flags[q].dirty
    ensures var r := SourceRuns(m, pages, init + [page]);
            && r.Ok? && SourceList(full, m, pages, r.value, page + 1)
            && forall q: nat ::
                 CoversSource(r.value, q) <==> (q in init || q == page) && q < |m.flags| && !m.flags[q].dirty
  {
    hide SourceList, CoversSource, PageGood, AddSource, SourceRuns;
    AddsLast(m, pages, init, page, runs);
    EndsBefore(init, page);
    SourceListLater(full, m, pages, runs, EndOf(init), page);
    if m.flags[page].dirty {
      SourceListLater(full, m, pages, runs, page, page + 1);
    } else {
      AddSourceKeeps(full, m, pages, runs, page);
    }
  }

  lemma AddsLast(m: Mem, pages: PageMap, init: seq<u64>, page: u64, runs: seq<SourceRun>)
    requires page in pages && page < |m.flags| && (forall k :: k in init ==> k in pages)
    requires SourceRuns(m, pages, init) == Ok(runs)
    ensures SourceRuns(m, pages, init + [page])
         == Ok(if m.flags[page].dirty then runs else AddSource(runs, 4096 * page, pages[page]))
  {
    hide AddSource;
    var keys := init + [page];
    assert keys[|keys| - 1] == page && keys[..|keys| - 1] == init;
  }

  lemma EndsBefore(init: seq<u64>, page: u64)
    requires Ascending(init + [page])
    ensures EndOf(init) <= page
  {
    if init != [] {
      var keys := init + [page];
      assert keys[|init| - 1] < keys[|init|];
    }
  }

  lemma NoSource(full: Id -> seq<byte>, m: Mem, pages: PageMap)
    ensures SourceList(full, m, pages, [], 0) && forall q: nat :: !CoversSource([], q)
  {
  }

  lemma SourceListLater(full: Id -> seq<byte>, m: Mem, pages: PageMap, runs: seq<SourceRun>, n: nat, n': nat)
    requires SourceList(full, m, pages, runs, n) && n <= n'
    ensures SourceList(full, m, pages, runs, n')
  {
  }

  /** No two neighbours could be one run. */
  ghost predicate SourceMerged(runs: seq<SourceRun>) {
    forall j :: 0 <= j < |runs| - 1 ==>
      !(runs[j].address + runs[j].length == runs[j + 1].address && runs[j].flag == runs[j + 1].flag
        && runs[j].id == runs[j + 1].id && runs[j].offset + runs[j].length == runs[j + 1].offset)
  }

  lemma {:induction false} SourceRunsMerged(m: Mem, pages: PageMap, keys: seq<u64>)
    requires (forall k :: k in keys ==> k in pages) && SourceRuns(m, pages, keys).Ok?
    ensures SourceMerged(SourceRuns(m, pages, keys).value)
    decreases |keys|
  {
    hide AddSource;
    if keys != [] {
      var init, page := keys[..|keys| - 1], keys[|keys| - 1];
      SourceRunsMerged(m, pages, init);
      AddSourceMerges(SourceRuns(m, pages, init).value, Wrap(4096 * page), pages[page]);
    }
  }

  lemma AddSourceMerges(runs: seq<SourceRun>, address: u64, t: Tracked)
    requires SourceMerged(runs)
    ensures SourceMerged(AddSource(runs, address, t))
  {
    var runs' := AddSource(runs, address, t);
    assert forall j :: 0 <= j < |runs| - 1 ==> runs'[j] == runs[j];
    assert |runs| > 0 ==> runs'[|runs| - 1].(length := 0) == runs[|runs| - 1].(length := 0);
  }
}
