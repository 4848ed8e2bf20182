/** Whatever happens to the memory between loading a program and taking a snapshot, the tracked
    pages stay true. */
module History {
  import opened Words
  import opened Outcomes
  import opened Pages
  import opened Loading
  import opened Tracking
  import Traffic

  datatype AnyAct =
    | Access(call: Traffic.Call)
    | Fetch(addr: u64, id: Id, offset: u64, length: u64, sizeAddr: u64)
    | Track(start: u64, size: u64, id: Id, offset: u64)
    | Untrack(start: u64, size: u64)

  type Act = a: AnyAct | a.Access? ==> a.call.Valid() witness Untrack(0, 0)

  /** `Snapshot2Context::store_bytes` */
  function StoreBytes(load: Loader, m: Mem, pages: PageMap, addr: u64, id: Id, offset: u64, length: u64, sizeAddr: u64)
    : (Mem, PageMap, Result<(nat, u64)>)
  {
    match load(id, offset, length)
    case None => (m, pages, Err(SnapshotDataLoadError))
    case Some((data, fullLength)) =>
      if |data| >= 0x1_0000_0000_0000_0000 then (m, pages, Err(SnapshotDataLoadError)) else
      match StoreLoaded(m, pages, addr, data, fullLength, id, offset, sizeAddr)
      case (m', pages', Fail(e)) => (m', pages', Err(e))
      case (m', pages', Pass) => (m', pages', Ok((|data|, fullLength)))
  }

  function Do(load: Loader, m: Mem, pages: PageMap, a: Act): (Mem, PageMap)
  {
    match a
    case Access(c) => (Traffic.Respond(m, c).0, pages)
    case Fetch(addr, id, offset, length, sizeAddr) =>
      var (m', pages', _) := StoreBytes(load, m, pages, addr, id, offset, length, sizeAddr); (m', pages')
    case Track(start, size, id, offset) =>
      var (m', pages', _) := TrackPages(m, pages, start, size, id, offset); (m', pages')
    case Untrack(start, size) =>
      var (m', pages', _) := UntrackPages(m, pages, start, size); (m', pages')
  }

  /** The bytes in `[start, start + size)`, all within memory, are the data source's. */
  ghost predicate HoldsSource(full: Id -> seq<byte>, m: Mem, start: nat, size: nat, id: Id, offset: nat) {
    && start + size <= |m.data| && offset + size <= |full(id)|
    && m.data[start..start + size] == full(id)[offset..offset + size]
  }

  /** What the caller has to see to: nothing clears flags, a flag set by hand comes with DIRTY, no
      segment is loaded halfway, and what is declared to come from the data source does. */
  ghost predicate Fine(full: Id -> seq<byte>, m: Mem, a: Act) {
    match a
    case Access(c) =>
      && !c.ClearFlag?
      && (c.SetFlag? ==> c.flag.dirty)
      && (c.InitPages? ==> Traffic.Respond(m, c).1.Done? || Traffic.Respond(m, c).0 == m)
    case Fetch(addr, id, offset, length, sizeAddr) => true
    case Track(start, size, id, offset) => size > 0 ==> HoldsSource(full, m, start, size, id, offset)
    case Untrack(_, _) => true
  }

  // ---- Tracking a range that holds source bytes ----

  lemma RoundUpExact(x: u64)
    requires x <= 0xFFFF_FFFF_FFFF_F000
    ensures x <= RoundUp(x) < x + 4096 && RoundUp(x) % 4096 == 0 && Minus(RoundUp(x), x) == RoundUp(x) - x
  {
    var q, r := x / 4096, x % 4096;
    assert x == 4096 * q + r;
    if r > 0 {
      assert x + (4096 - r) % 4096 == 4096 * (q + 1);
    }
  }

  lemma PagesHoldSource(full: Id -> seq<byte>, m: Mem, start: nat, size: nat, id: Id, offset: nat, page: nat, n: nat)
    requires HoldsSource(full, m, start, size, id, offset)
    requires start <= 4096 * page && 4096 * page + 4096 * n <= start + size
    ensures AllBacked(full, m, page, n, id, offset + (4096 * page - start))
  {
    forall k | 0 <= k < n
      ensures Backed(full, m, page + k, id, offset + (4096 * page - start) + 4096 * k)
    {
      PieceHolds(full, m, start, size, id, offset, 4096 * page - start + 4096 * k);
    }
  }

  lemma PieceHolds(full: Id -> seq<byte>, m: Mem, start: nat, size: nat, id: Id, offset: nat, d: nat)
    requires HoldsSource(full, m, start, size, id, offset) && d + 4096 <= size
    ensures m.data[start + d..start + d + 4096] == full(id)[offset + d..offset + d + 4096]
  {
    PieceOfPiece(m.data, start, size, d);
    PieceOfPiece(full(id), offset, size, d);
  }

  lemma PieceOfPiece(s: seq<byte>, start: nat, size: nat, d: nat)
    requires start + size <= |s| && d + 4096 <= size
    ensures s[start..start + size][d..d + 4096] == s[start + d..start + d + 4096]
  {
    var x, y := s[start..start + size][d..d + 4096], s[start + d..start + d + 4096];
    forall k | 0 <= k < 4096
      ensures x[k] == y[k]
    {
    }
    assert |x| == |y| && x == y;
  }

  lemma TrackPagesKeepsGood(full: Id -> seq<byte>, m: Mem, pages: PageMap, start: u64, size: u64, id: Id, offset: u64)
    requires Good(full, m, pages) && (size > 0 ==> HoldsSource(full, m, start, size, id, offset))
    requires |full(id)| < 0x1_0000_0000_0000_0000
    ensures var (m', pages', _) := TrackPages(m, pages, start, size, id, offset);
            Good(full, m', pages') && m'.data == m.data && m'.lr == m.lr
  {
    hide Good, AllBacked, RoundUp, Backed;
    var aligned := RoundUp(start);
    var skipped := Minus(aligned, start);
    if size > 0 && skipped <= size {
      RoundUpExact(start);
      var page, n := aligned / 4096, (size - skipped) / 4096;
      PagesHoldSource(full, m, start, size, id, offset, page, n);
      TrackKeepsGood(full, m, pages, page, n, id, Plus(offset, skipped));
    }
  }

  // ---- One act ----

  lemma StoreLoadedKeepsGood(full: Id -> seq<byte>, m: Mem, pages: PageMap, addr: u64, data: seq<byte>,
                             fullLength: u64, id: Id, offset: u64, sizeAddr: u64)
    requires Good(full, m, pages) && |data| < 0x1_0000_0000_0000_0000
    requires Holds(full(id), offset, data) && |full(id)| < 0x1_0000_0000_0000_0000
    ensures var (m', pages', _) := StoreLoaded(m, pages, addr, data, fullLength, id, offset, sizeAddr);
            Good(full, m', pages')
  {
    hide Good, UntrackRange, TrackPages, Put, ToLe;
    var (m1, s1) := StoreWord(m, sizeAddr, fullLength, 8);
    StoreKeepsGood(full, m, pages, sizeAddr, ToLe(fullLength, 8));
    if s1.Pass? {
      var (m2, pages2, s2) := UntrackPages(m1, pages, addr, |data|);
      if data != [] {
        UntrackKeepsGood(full, m1, pages, addr / 4096, Minus(Plus(addr, |data|), 1) / 4096);
      }
      if s2.Pass? {
        var (m3, s3) := Store(m2, addr, data);
        StoreKeepsGood(full, m2, pages2, addr, data);
        if s3.Pass? {
          if data != [] {
            Stored(m2, addr, data);
          }
          TrackPagesKeepsGood(full, m3, pages2, addr, |data|, id, offset);
        }
      }
    }
  }

  lemma Stored(m: Mem, addr: u64, bytes: seq<byte>)
    requires Store(m, addr, bytes).1.Pass? && bytes != []
    ensures var m' := Store(m, addr, bytes).0;
            addr + |bytes| <= |m'.data| == |m.data| && m'.data[addr..addr + |bytes|] == bytes
  {
  }

  lemma LoadedKeepsGood(full: Id -> seq<byte>, m: Mem, m': Mem, pages: PageMap, addr: nat, size: nat,
                        flags: PageFlags, source: Option<seq<byte>>, offset: nat)
    requires Good(full, m, pages) && Loaded(m, m', addr, size, flags, source, offset)
    requires addr % 4096 == 0 && size % 4096 == 0
    ensures Good(full, m', pages)
  {
    forall p | 0 <= p < |m.flags|
      ensures PageGood(full, m', pages, p)
    {
      if !(addr / 4096 <= p < addr / 4096 + size / 4096) {
        assert PageBytes(m', p) == PageBytes(m, p);
        SamePage(full, m, pages, m', pages, p);
      }
    }
  }

  lemma InitPagesDone(m: Mem, c: Traffic.Call)
    requires c.InitPages? && Traffic.Respond(m, c).1.Done?
    ensures c.addr % 4096 == 0 && c.bytesLen % 4096 == 0
    ensures Loaded(m, Traffic.Respond(m, c).0, c.addr, c.bytesLen, c.flags, c.source, c.offset)
  {
    InitPagesSucceeds(m, c.addr, c.bytesLen, c.flags, c.source, c.offset);
    InitPagesExact(m, c.addr, c.bytesLen, c.flags, c.source, c.offset);
  }

  lemma AccessKeepsGood(full: Id -> seq<byte>, m: Mem, pages: PageMap, c: Traffic.Call)
    requires c.Valid() && Good(full, m, pages) && Fine(full, m, Access(c))
    ensures Good(full, Traffic.Respond(m, c).0, pages)
  {
    hide Good, InitPages, Store, Load, ExecuteLoad, LoadBytes;
    var m' := Traffic.Respond(m, c).0;
    if c.StoreBytes? {
      StoreKeepsGood(full, m, pages, c.addr, c.bytes);
    } else if c.StoreByte? {
      StoreKeepsGood(full, m, pages, c.addr, Repeat(c.size, c.value));
    } else if c.StoreWord? {
      StoreKeepsGood(full, m, pages, c.addr, ToLe(c.word, c.n));
    } else if c.InitPages? {
      if Traffic.Respond(m, c).1.Done? {
        InitPagesDone(m, c);
        LoadedKeepsGood(full, m, m', pages, c.addr, c.bytesLen, c.flags, c.source, c.offset);
      }
    } else if c.SetFlag? {
      SetDirtyKeepsGood(full, m, pages, c.page, c.flag);
    } else if c.SetLr? {
      ReservationKeepsGood(full, m, pages, c.word);
    }
  }

  lemma SetDirtyKeepsGood(full: Id -> seq<byte>, m: Mem, pages: PageMap, page: u64, flag: PageFlags)
    requires Good(full, m, pages) && flag.dirty
    ensures Good(full, SetFlag(m, page, flag).0, pages)
  {
    var m' := SetFlag(m, page, flag).0;
    forall p | 0 <= p < |m.flags|
      ensures PageGood(full, m', pages, p)
    {
      if p != page {
        SamePage(full, m, pages, m', pages, p);
      }
    }
  }

  lemma ReservationKeepsGood(full: Id -> seq<byte>, m: Mem, pages: PageMap, lr: u64)
    requires Good(full, m, pages)
    ensures Good(full, m.(lr := lr), pages)
  {
    forall p | 0 <= p < |m.flags|
      ensures PageGood(full, m.(lr := lr), pages, p)
    {
      SamePage(full, m, pages, m.(lr := lr), pages, p);
    }
  }

  lemma DoKeepsGood(load: Loader, full: Id -> seq<byte>, m: Mem, pages: PageMap, a: Act)
    requires Stable(load, full) && Good(full, m, pages) && Fine(full, m, a)
    ensures var (m', pages') := Do(load, m, pages, a); Good(full, m', pages')
  {
    hide Good, StoreLoaded, TrackPages, UntrackRange, Traffic.Respond;
    if a.Access? {
      AccessKeepsGood(full, m, pages, a.call);
    } else if a.Fetch? {
      var answer := load(a.id, a.offset, a.length);
      if answer.Some? && |answer.value.0| < 0x1_0000_0000_0000_0000 {
        StoreLoadedKeepsGood(full, m, pages, a.addr, answer.value.0, answer.value.1, a.id, a.offset, a.sizeAddr);
      }
    } else if a.Track? {
      TrackPagesKeepsGood(full, m, pages, a.start, a.size, a.id, a.offset);
    } else if a.size > 0 {
      UntrackKeepsGood(full, m, pages, a.start / 4096, Minus(Plus(a.start, a.size), 1) / 4096);
    }
  }

  // ---- Any history ----

  ghost predicate AllFine(load: Loader, full: Id -> seq<byte>, m: Mem, pages: PageMap, acts: seq<Act>)
    decreases |acts|
  {
    acts == [] ||
    (&& Fine(full, m, acts[0])
     && var (m', pages') := Do(load, m, pages, acts[0]);
        AllFine(load, full, m', pages', acts[1..]))
  }

  function DoAll(load: Loader, m: Mem, pages: PageMap, acts: seq<Act>): (Mem, PageMap)
    decreases |acts|
  {
    if acts == [] then (m, pages)
    else var (m', pages') := Do(load, m, pages, acts[0]); DoAll(load, m', pages', acts[1..])
  }

  /** After any history, every page is dirty, or backed by the data source as the map says, or
      untouched. */
  lemma {:induction false} HistoryKeepsGood(load: Loader, full: Id -> seq<byte>, m: Mem, pages: PageMap, acts: seq<Act>)
    requires Stable(load, full) && Good(full, m, pages) && AllFine(load, full, m, pages, acts)
    ensures var (m', pages') := DoAll(load, m, pages, acts); Good(full, m', pages')
    decreases |acts|
  {
    hide Good, Stable, Do;
    if acts != [] {
      DoKeepsGood(load, full, m, pages, acts[0]);
      var (m', pages') := Do(load, m, pages, acts[0]);
      HistoryKeepsGood(load, full, m', pages', acts[1..]);
    }
  }

  /** A new memory is good before anything is tracked. */
  lemma NewIsGood(full: Id -> seq<byte>, m: Mem)
    requires forall p :: 0 <= p < |m.flags| ==> Fresh(m, p)
    ensures Good(full, m, map[])
  {
  }

  /** A segment that fails on a freezed page has already put its flags on the pages before it, and
      those pages are good afterwards exactly when they are dirty or had the flags already: otherwise
      a snapshot would lose the flags. */
  lemma HalfLoaded(full: Id -> seq<byte>, m: Mem, pages: PageMap, page: nat, stop: nat, flags: PageFlags)
    requires Good(full, m, pages) && page <= stop <= |m.flags|
    ensures Good(full, AddFlags(m, page, stop, flags), pages) <==>
            forall p :: page <= p < stop ==> m.flags[p].dirty || flags.dirty || m.flags[p].Or(flags) == m.flags[p]
  {
    var m' := AddFlags(m, page, stop, flags);
    forall p | 0 <= p < |m.flags|
      ensures PageGood(full, m', pages, p) <==>
              (page <= p < stop ==> m.flags[p].dirty || flags.dirty || m.flags[p].Or(flags) == m.flags[p])
    {
      assert PageGood(full, m, pages, p);
      if m'.flags[p] == m.flags[p] {
        SamePage(full, m, pages, m', pages, p);
      }
    }
  }
}
