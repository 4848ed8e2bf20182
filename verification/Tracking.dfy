/** Page tracking: which pages a snapshot may fetch from the data source instead of copying, and
    why that stays right over any history of writes. */
module Tracking {
  import opened Words
  import opened Outcomes
  import opened Pages

  type Id = nat

  /** Where a page's content is found, and the flags to give it. */
  datatype Tracked = Tracked(id: Id, offset: u64, flag: PageFlags)

  type PageMap = map<u64, Tracked>

  /** `DataSource::load_data`: the bytes, and the full length counted from the offset. */
  type Loader = (Id, u64, u64) -> Option<(seq<byte>, u64)>

  /** The data source is stable: every answer is a piece of a fixed content, and every non-empty
      piece within that content can be had. */
  ghost predicate Stable(load: Loader, full: Id -> seq<byte>) {
    && (forall id: Id :: |full(id)| < 0x1_0000_0000_0000_0000)
    && (forall id: Id, offset: u64, length: u64 :: load(id, offset, length).Some? ==>
          Holds(full(id), offset, load(id, offset, length).value.0))
    && (forall id: Id, offset: u64, length: u64 :: 0 < length && offset + length <= |full(id)| ==>
          load(id, offset, length).Some? && |load(id, offset, length).value.0| == length)
  }

  /** `s` holds `d` at `offset`. */
  predicate Holds(s: seq<byte>, offset: nat, d: seq<byte>) {
    d != [] ==> offset + |d| <= |s| && s[offset..offset + |d|] == d
  }

  function PageBytes(m: Mem, p: nat): (s: seq<byte>)
    requires p < |m.flags|
    ensures |s| == 4096
  {
    m.data[4096 * p..4096 * p + 4096]
  }

  // ---- Tracking and untracking ----

  /** The page loop of `untrack_pages`. */
  function UntrackRange(m: Mem, pages: PageMap, page: u64, last: nat): (Mem, PageMap, Status)
    decreases last + 1 - page
  {
    if page > last then (m, pages, Pass)
    else
      match SetFlag(m, page, DIRTY)
      case (m', Fail(e)) => (m', pages, Fail(e))
      case (m', Pass) => UntrackRange(m', pages - {page}, page + 1, last)
  }

  function UntrackPages(m: Mem, pages: PageMap, start: u64, length: u64): (Mem, PageMap, Status) {
    if length == 0 then (m, pages, Pass)
    else UntrackRange(m, pages, start / 4096, Minus(Plus(start, length), 1) / 4096)
  }

  /** The page loop of `track_pages`, for `n` whole pages. */
  function TrackRange(m: Mem, pages: PageMap, page: u64, n: nat, id: Id, offset: u64): (Mem, PageMap, Status)
    decreases n
  {
    if n == 0 then (m, pages, Pass)
    else
      match ClearFlag(m, page, DIRTY)
      case (m', Fail(e)) => (m', pages, Fail(e))
      case (m', Pass) =>
        TrackRange(m', pages[page := Tracked(id, offset, m'.flags[page])], page + 1, n - 1, id, Plus(offset, 4096))
  }

  /** Only pages that lie wholly within the range are tracked. */
  function TrackPages(m: Mem, pages: PageMap, start: u64, length: u64, id: Id, offset: u64): (Mem, PageMap, Status) {
    var aligned := RoundUp(start);
    var skipped := Minus(aligned, start);
    if length < skipped then (m, pages, Pass)
    else TrackRange(m, pages, aligned / 4096, (length - skipped) / 4096, id, Plus(offset, skipped))
  }

  /** `Snapshot2Context::store_bytes` once the data is loaded: report the full length at `sizeAddr`,
      untrack what will be written, write, track. */
  function StoreLoaded(m: Mem, pages: PageMap, addr: u64, data: seq<byte>, fullLength: u64, id: Id, offset: u64,
                       sizeAddr: u64)
    : (Mem, PageMap, Status)
    requires |data| < 0x1_0000_0000_0000_0000
  {
    match StoreWord(m, sizeAddr, fullLength, 8)
    case (m1, Fail(e)) => (m1, pages, Fail(e))
    case (m1, Pass) =>
      match UntrackPages(m1, pages, addr, |data|)
      case (m2, pages2, Fail(e)) => (m2, pages2, Fail(e))
      case (m2, pages2, Pass) =>
        match Store(m2, addr, data)
        case (m3, Fail(e)) => (m3, pages2, Fail(e))
        case (m3, Pass) => TrackPages(m3, pages2, addr, |data|, id, offset)
  }

  // ---- The invariant ----

  ghost predicate Backed(full: Id -> seq<byte>, m: Mem, p: nat, id: Id, offset: nat)
    requires p < |m.flags|
  {
    offset + 4096 <= |full(id)| && PageBytes(m, p) == full(id)[offset..offset + 4096]
  }

  ghost predicate Fresh(m: Mem, p: nat)
    requires p < |m.flags|
  {
    m.flags[p] == NONE && forall i :: 4096 * p <= i < 4096 * p + 4096 ==> m.data[i] == 0
  }

  /** A page is dirty, or the data source has it and the map says where, or nothing has happened to it. */
  ghost predicate PageGood(full: Id -> seq<byte>, m: Mem, pages: PageMap, p: nat)
    requires p < |m.flags|
  {
    || m.flags[p].dirty
    || (p in pages && pages[p].flag == m.flags[p] && Backed(full, m, p, pages[p].id, pages[p].offset))
    || (p !in pages && Fresh(m, p))
  }

  ghost predicate Good(full: Id -> seq<byte>, m: Mem, pages: PageMap) {
    && (forall p :: p in pages ==> p < |m.flags|)
    && (forall p :: 0 <= p < |m.flags| ==> PageGood(full, m, pages, p))
  }

  /** A page whose bytes, flags and entry stay the same stays good. */
  lemma SamePage(full: Id -> seq<byte>, m: Mem, pages: PageMap, m': Mem, pages': PageMap, p: nat)
    requires p < |m.flags| == |m'.flags| && PageGood(full, m, pages, p)
    requires m'.flags[p] == m.flags[p] && PageBytes(m', p) == PageBytes(m, p)
    requires p in pages <==> p in pages'
    requires p in pages ==> pages[p] == pages'[p]
    ensures PageGood(full, m', pages', p)
  {
    if p !in pages && !m.flags[p].dirty {
      forall i | 4096 * p <= i < 4096 * p + 4096
        ensures m'.data[i] == 0
      {
        assert PageBytes(m', p)[i - 4096 * p] == PageBytes(m, p)[i - 4096 * p];
      }
    }
  }

  /** Writing marks what it touches dirty. */
  lemma PutKeepsGood(full: Id -> seq<byte>, m: Mem, pages: PageMap, addr: nat, bytes: seq<byte>)
    requires Good(full, m, pages) && addr + |bytes| <= |m.data|
    ensures Good(full, Put(m, addr, bytes), pages)
  {
    var m' := Put(m, addr, bytes);
    forall p | 0 <= p < |m.flags|
      ensures PageGood(full, m', pages, p)
    {
      if !Touches(addr, |bytes|, p) {
        UntouchedPage(m, addr, bytes, p);
        SamePage(full, m, pages, m', pages, p);
      }
    }
  }

  lemma UntouchedPage(m: Mem, addr: nat, bytes: seq<byte>, p: nat)
    requires addr + |bytes| <= |m.data| && p < |m.flags| && !Touches(addr, |bytes|, p)
    ensures PageBytes(Put(m, addr, bytes), p) == PageBytes(m, p)
  {
    if bytes != [] {
      assert 4096 * p + 4096 <= addr || addr + |bytes| <= 4096 * p;
    }
  }

  lemma StoreKeepsGood(full: Id -> seq<byte>, m: Mem, pages: PageMap, addr: u64, bytes: seq<byte>)
    requires Good(full, m, pages)
    ensures Good(full, Store(m, addr, bytes).0, pages)
  {
    hide Put, Good;
    if Store(m, addr, bytes).1.Pass? && bytes != [] {
      PutKeepsGood(full, m, pages, addr, bytes);
    }
  }

  lemma {:induction false} UntrackKeepsGood(full: Id -> seq<byte>, m: Mem, pages: PageMap, page: u64, last: nat)
    requires Good(full, m, pages)
    ensures var (m', pages', _) := UntrackRange(m, pages, page, last);
            Good(full, m', pages') && m'.data == m.data && m'.lr == m.lr
    decreases last + 1 - page
  {
    if page <= last && page < |m.flags| {
      var m1 := SetFlag(m, page, DIRTY).0;
      forall p | 0 <= p < |m.flags|
        ensures PageGood(full, m1, pages - {page}, p)
      {
        if p != page {
          SamePage(full, m, pages, m1, pages - {page}, p);
        }
      }
      UntrackKeepsGood(full, m1, pages - {page}, page + 1, last);
    }
  }

  /** The pages from `page` on hold the data source's bytes from `offset` on. */
  ghost predicate AllBacked(full: Id -> seq<byte>, m: Mem, page: nat, n: nat, id: Id, offset: nat) {
    forall k :: 0 <= k < n && page + k < |m.flags| ==> Backed(full, m, page + k, id, offset + 4096 * k)
  }

  lemma {:induction false} TrackKeepsGood(full: Id -> seq<byte>, m: Mem, pages: PageMap, page: u64, n: nat, id: Id,
                                          offset: u64)
    requires Good(full, m, pages) && |full(id)| < 0x1_0000_0000_0000_0000
    requires AllBacked(full, m, page, n, id, offset)
    ensures var (m', pages', _) := TrackRange(m, pages, page, n, id, offset);
            Good(full, m', pages') && m'.data == m.data && m'.lr == m.lr
    decreases n
  {
    hide Backed;
    if n > 0 && page < |m.flags| {
      var m1 := ClearFlag(m, page, DIRTY).0;
      var pages1 := pages[page := Tracked(id, offset, m1.flags[page])];
      assert Backed(full, m, page + 0, id, offset + 4096 * 0);
      TrackOne(full, m, pages, page, id, offset);
      forall k | 0 <= k < n - 1 && page + 1 + k < |m1.flags|
        ensures Backed(full, m1, page + 1 + k, id, Plus(offset, 4096) + 4096 * k)
      {
        assert Backed(full, m, page + (k + 1), id, offset + 4096 * (k + 1));
        NoWrap(full, m, page + (k + 1), id, offset, k + 1);
        BackedByData(full, m, m1, page + (k + 1), id, offset + 4096 * (k + 1));
      }
      TrackKeepsGood(full, m1, pages1, page + 1, n - 1, id, Plus(offset, 4096));
    }
  }

  lemma NoWrap(full: Id -> seq<byte>, m: Mem, p: nat, id: Id, offset: u64, k: nat)
    requires p < |m.flags| && Backed(full, m, p, id, offset + 4096 * k) && |full(id)| < 0x1_0000_0000_0000_0000 && k > 0
    ensures Plus(offset, 4096) == offset + 4096
  {
  }

  lemma BackedByData(full: Id -> seq<byte>, m: Mem, m': Mem, p: nat, id: Id, offset: nat)
    requires p < |m.flags| && Backed(full, m, p, id, offset) && m'.data == m.data && |m'.flags| == |m.flags|
    ensures Backed(full, m', p, id, offset)
  {
  }

  lemma TrackOne(full: Id -> seq<byte>, m: Mem, pages: PageMap, page: u64, id: Id, offset: u64)
    requires Good(full, m, pages) && page < |m.flags| && Backed(full, m, page, id, offset)
    ensures var m1 := ClearFlag(m, page, DIRTY).0;
            Good(full, m1, pages[page := Tracked(id, offset, m1.flags[page])])
  {
    var m1 := ClearFlag(m, page, DIRTY).0;
    var pages1 := pages[page := Tracked(id, offset, m1.flags[page])];
    forall p | 0 <= p < |m.flags|
      ensures PageGood(full, m1, pages1, p)
    {
      if p != page {
        SamePage(full, m, pages, m1, pages1, p);
      }
    }
  }
}
