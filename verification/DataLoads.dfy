/** What loading data through a snapshot context leaves in memory, in the page map and with the guest. */
module DataLoads {
  import opened Words
  import opened Outcomes
  import opened Pages
  import opened Tracking
  import opened History
  import opened Atomics
  import opened InstructionLaws

  /** Page `p` lies wholly within the range. */
  predicate Whole(start: nat, size: int, p: nat) {
    start <= 4096 * p && 4096 * p + 4096 <= start + size
  }

  // ---- Tracking: the whole pages of a range, and no others ----

  ghost predicate OnlyFlags(m: Mem, m': Mem) {
    m'.data == m.data && m'.lr == m.lr && |m'.flags| == |m.flags|
  }

  /** Where the source has the page `k` pages on. */
  function PlaceOf(offset: int, k: int): u64 {
    Wrap(offset + 4096 * k)
  }

  lemma NextPlace(offset: u64, k: int)
    ensures PlaceOf(Plus(offset, 4096), k - 1) == PlaceOf(offset, k) && PlaceOf(offset, 0) == offset
  {
  }

  /** `pages'` is `pages` with an entry for every page of `[page, page + n)`. */
  ghost predicate Enters(m: Mem, pages: PageMap, pages': PageMap, page: nat, n: nat, id: Id, offset: u64) {
    forall q: u64 ::
      && (q in pages' <==> q in pages || page <= q < page + n)
      && (page <= q < page + n && q < |m.flags| ==>
            pages'[q] == Tracked(id, PlaceOf(offset, q - page), m.flags[q].(dirty := false)))
      && (q in pages && !(page <= q < page + n) ==> pages'[q] == pages[q])
  }

  lemma {:induction false} TrackRangeEnters(m: Mem, pages: PageMap, page: u64, n: nat, id: Id, offset: u64)
    requires page + n <= |m.flags|
    ensures var (m', pages', s) := TrackRange(m, pages, page, n, id, offset);
            && s.Pass? && OnlyFlags(m, m') && Enters(m, pages, pages', page, n, id, offset)
            && forall p :: 0 <= p < |m.flags| ==>
                 m'.flags[p] == if page <= p < page + n then m.flags[p].(dirty := false) else m.flags[p]
    decreases n
  {
    hide PlaceOf, Plus;
    if n > 0 {
      var m1 := ClearFlag(m, page, DIRTY).0;
      var pages1 := pages[page := Tracked(id, offset, m1.flags[page])];
      TrackRangeEnters(m1, pages1, page + 1, n - 1, id, Plus(offset, 4096));
      forall k: int
        ensures PlaceOf(Plus(offset, 4096), k - 1) == PlaceOf(offset, k) && PlaceOf(offset, 0) == offset
      {
        NextPlace(offset, k);
      }
      var (_, pages', _) := TrackRange(m1, pages1, page + 1, n - 1, id, Plus(offset, 4096));
      forall q: u64 | page <= q < page + n
        ensures pages'[q] == Tracked(id, PlaceOf(offset, q - page), m.flags[q].(dirty := false))
      {
        assert PlaceOf(Plus(offset, 4096), (q - page) - 1) == PlaceOf(offset, q - page);
      }
    }
  }

  lemma WrapInner(x: int, y: int)
    ensures Wrap(Wrap(x) + y) == Wrap(x + y)
  {
  }

  /** The entry of a page wholly within the range, for content found at `offset` in the source. */
  function EntryOf(m: Mem, start: nat, id: Id, offset: nat, p: nat): Tracked
    requires p < |m.flags|
  {
    Tracked(id, Wrap(offset + (4096 * p - start)), m.flags[p].(dirty := false))
  }

  /** `track_pages` on a range in memory enters exactly the pages that lie wholly within it, wherever it
      starts, and takes their dirty bit away. */
  lemma TrackPagesExact(m: Mem, pages: PageMap, start: u64, size: u64, id: Id, offset: u64)
    requires start + size <= |m.data|
    ensures var (m', pages', s) := TrackPages(m, pages, start, size, id, offset);
            && s.Pass? && OnlyFlags(m, m')
            && (forall p :: 0 <= p < |m.flags| ==>
                  m'.flags[p] == if Whole(start, size, p) then m.flags[p].(dirty := false) else m.flags[p])
            && (forall q: u64 ::
                  && (q in pages' <==> q in pages || Whole(start, size, q))
                  && (Whole(start, size, q) ==> q < |m.flags| && pages'[q] == EntryOf(m, start, id, offset, q))
                  && (q in pages && !Whole(start, size, q) ==> pages'[q] == pages[q]))
  {
    hide RoundUp, Wrap;
    RoundUpExact(start);
    var skipped := RoundUp(start) - start;
    if size >= skipped {
      var page, n := RoundUp(start) / 4096, (size - skipped) / 4096;
      assert Plus(offset, skipped) == Wrap(offset + skipped);
      PagesWithin(start, size, skipped, page, n);
      TrackRangeEnters(m, pages, page, n, id, Plus(offset, skipped));
      forall q: u64 | page <= q < page + n
        ensures Wrap(Plus(offset, skipped) + 4096 * (q - page)) == Wrap(offset + (4096 * q - start))
      {
        WrapInner(offset + skipped, 4096 * (q - page));
      }
    } else {
      NoneWithin(start, size);
    }
  }

  lemma PagesWithin(start: nat, size: nat, skipped: nat, page: nat, n: nat)
    requires skipped <= size && skipped < 4096 && start + skipped == 4096 * page && n == (size - skipped) / 4096
    ensures forall q: nat :: Whole(start, size, q) <==> page <= q < page + n
    ensures 4096 * (page + n) <= start + size
  {
  }

  lemma NoneWithin(start: u64, size: nat)
    requires start <= 0xFFFF_FFFF_FFFF_F000 && size < RoundUp(start) - start
    ensures forall q: nat :: !Whole(start, size, q)
  {
    hide RoundUp;
    RoundUpExact(start);
    forall q: nat
      ensures !Whole(start, size, q)
    {
      if start <= 4096 * q {
        assert 4096 * q >= RoundUp(start);
      }
    }
  }

  // ---- Untracking: every page the range touches ----

  lemma {:induction false} UntrackRangeLeaves(m: Mem, pages: PageMap, page: u64, last: nat)
    requires last < |m.flags|
    ensures var (m', pages', s) := UntrackRange(m, pages, page, last);
            && s.Pass? && OnlyFlags(m, m')
            && (forall p :: 0 <= p < |m.flags| ==>
                  m'.flags[p] == if page <= p <= last then m.flags[p].(dirty := true) else m.flags[p])
            && pages' == map q | q in pages && !(page <= q <= last) :: pages[q]
    decreases last + 1 - page
  {
    if page <= last {
      var m1 := SetFlag(m, page, DIRTY).0;
      UntrackRangeLeaves(m1, pages - {page}, page + 1, last);
    }
  }

  /** `untrack_pages` on a range in memory marks every page it touches dirty and takes it off the map. */
  lemma UntrackPagesExact(m: Mem, pages: PageMap, start: u64, size: u64)
    requires size > 0 ==> start + size <= |m.data|
    ensures var (m', pages', s) := UntrackPages(m, pages, start, size);
            && s.Pass? && OnlyFlags(m, m')
            && (forall p :: 0 <= p < |m.flags| ==>
                  m'.flags[p] == if Touches(start, size, p) then m.flags[p].(dirty := true) else m.flags[p])
            && pages' == map q | q in pages && !Touches(start, size, q) :: pages[q]
  {
    if size > 0 {
      assert Minus(Plus(start, size), 1) == start + size - 1;
      UntrackRangeLeaves(m, pages, start / 4096, (start + size - 1) / 4096);
    }
  }

  // ---- Loading data ----

  lemma BytesAreStored(m: Mem, addr: u64, bytes: seq<byte>)
    requires bytes != []
    ensures var (m', s) := Store(m, addr, bytes);
            && (s.Pass? <==> Storable(m, addr, |bytes|))
            && (s.Fail? ==> m' == m)
            && (s.Pass? ==>
                  && |m'.data| == |m.data| && m'.lr == m.lr
                  && (forall k :: 0 <= k < |m.data| ==>
                        m'.data[k] == if addr <= k < addr + |bytes| then bytes[k - addr] else m.data[k])
                  && (forall p :: 0 <= p < |m.flags| ==>
                        m'.flags[p] == if Touches(addr, |bytes|, p) then m.flags[p].(dirty := true) else m.flags[p]))
  {
  }

  /** The bytes after a load: the data at `addr`, elsewhere the full length at `sizeAddr`, elsewhere what
      was there. */
  ghost predicate LoadedBytes(m: Mem, m': Mem, addr: nat, data: seq<byte>, sizeAddr: nat, fullLength: nat) {
    && |m'.data| == |m.data| && m'.lr == m.lr && sizeAddr + 8 <= |m.data|
    && (data != [] ==> addr + |data| <= |m.data|)
    && forall k :: 0 <= k < |m.data| ==>
         m'.data[k] == if addr <= k < addr + |data| then data[k - addr]
                       else if sizeAddr <= k < sizeAddr + 8 then ByteOf(fullLength, k - sizeAddr)
                       else m.data[k]
  }

  /** Whole pages of the data are clean; other pages it touches, and those of the reported length, are dirty. */
  ghost predicate LoadedFlags(m: Mem, m': Mem, addr: nat, size: nat, sizeAddr: nat) {
    && |m'.flags| == |m.flags|
    && forall p :: 0 <= p < |m.flags| ==>
         m'.flags[p] == if Whole(addr, size, p) then m.flags[p].(dirty := false)
                        else if Touches(addr, size, p) || Touches(sizeAddr, 8, p) then m.flags[p].(dirty := true)
                        else m.flags[p]
  }

  /** Whole pages of the data are on the map with their place in the source, other pages it touches are not. */
  ghost predicate LoadedPages(m: Mem, pages: PageMap, pages': PageMap, addr: nat, size: nat, id: Id, offset: nat) {
    forall q: u64 ::
      && (q in pages' <==> Whole(addr, size, q) || (q in pages && !Touches(addr, size, q)))
      && (Whole(addr, size, q) ==> q < |m.flags| && pages'[q] == EntryOf(m, addr, id, offset, q))
      && (q in pages && !Touches(addr, size, q) ==> pages'[q] == pages[q])
  }

  /** Both writes may go ahead. */
  ghost predicate Placeable(m: Mem, addr: nat, size: nat, sizeAddr: nat) {
    Storable(m, sizeAddr, 8) && (size > 0 ==> Storable(m, addr, size))
  }

  lemma WholeIsTouched(addr: nat, size: nat, p: nat)
    ensures Whole(addr, size, p) ==> Touches(addr, size, p)
  {
  }

  /** The part after the length has been reported. */
  lemma PlacedData(m: Mem, pages: PageMap, addr: u64, data: seq<byte>, id: Id, offset: u64)
    requires data != [] && Storable(m, addr, |data|)
    ensures var (m1, pages1, s1) := UntrackPages(m, pages, addr, |data|);
            var (m2, s2) := Store(m1, addr, data);
            var (m', pages', s3) := TrackPages(m2, pages1, addr, |data|, id, offset);
            && s1.Pass? && s2.Pass? && s3.Pass?
            && |m'.data| == |m.data| && m'.lr == m.lr && |m'.flags| == |m.flags|
            && (forall k :: 0 <= k < |m.data| ==>
                  m'.data[k] == if addr <= k < addr + |data| then data[k - addr] else m.data[k])
            && (forall p :: 0 <= p < |m.flags| ==>
                  m'.flags[p] == if Whole(addr, |data|, p) then m.flags[p].(dirty := false)
                                 else if Touches(addr, |data|, p) then m.flags[p].(dirty := true) else m.flags[p])
            && LoadedPages(m, pages, pages', addr, |data|, id, offset)
  {
    hide UntrackPages, TrackPages, Store, Touches, Whole;
    UntrackPagesExact(m, pages, addr, |data|);
    var (m1, pages1, _) := UntrackPages(m, pages, addr, |data|);
    assert Storable(m1, addr, |data|);
    BytesAreStored(m1, addr, data);
    var m2 := Store(m1, addr, data).0;
    TrackPagesExact(m2, pages1, addr, |data|, id, offset);
    forall p: nat
      ensures Whole(addr, |data|, p) ==> Touches(addr, |data|, p)
    {
      WholeIsTouched(addr, |data|, p);
    }
  }

  /** Where the data cannot be placed, the length is at most all that was written. */
  lemma NotPlaced(m: Mem, pages: PageMap, addr: u64, data: seq<byte>, id: Id, offset: u64)
    requires data != [] && !Storable(m, addr, |data|) && |data| < 0x1_0000_0000_0000_0000
    ensures var (m1, pages1, s1) := UntrackPages(m, pages, addr, |data|);
            && m1.data == m.data && m1.lr == m.lr
            && (s1.Pass? ==> var (m2, s2) := Store(m1, addr, data); s2.Fail? && m2 == m1)
  {
    hide Store;
    var first, last := addr / 4096, Minus(Plus(addr, |data|), 1) / 4096;
    UntrackKeepsPermissions(m, pages, first, last);
    var m1 := UntrackPages(m, pages, addr, |data|).0;
    BytesAreStored(m1, addr, data);
    var s2 := Store(m1, addr, data).1;
    assert s2.Pass? || s2.Fail?;
  }

  lemma {:induction false} UntrackKeepsPermissions(m: Mem, pages: PageMap, page: u64, last: nat)
    ensures var m' := UntrackRange(m, pages, page, last).0;
            OnlyFlags(m, m') && forall p :: 0 <= p < |m.flags| ==> m'.flags[p].executable == m.flags[p].executable
    decreases last + 1 - page
  {
    if page <= last && page < |m.flags| {
      UntrackKeepsPermissions(SetFlag(m, page, DIRTY).0, pages - {page}, page + 1, last);
    }
  }

  /** `Snapshot2Context::store_bytes`. It succeeds exactly when the source answers and both writes may go
      ahead. Then the guest finds the full length, not the number of bytes written, at `sizeAddr`, unless
      the data lies over it; the data is at `addr`; nothing else in memory has changed; the whole pages of
      the data are clean and on the map; and the caller gets both lengths. If it fails, at most the length
      has been written. */
  lemma StoreBytesLaw(load: Loader, m: Mem, pages: PageMap, addr: u64, id: Id, offset: u64, length: u64, sizeAddr: u64)
    ensures var (m', pages', r) := StoreBytes(load, m, pages, addr, id, offset, length, sizeAddr);
            var answer := load(id, offset, length);
            && (r.Ok? <==>
                  && answer.Some? && |answer.value.0| < 0x1_0000_0000_0000_0000
                  && Placeable(m, addr, |answer.value.0|, sizeAddr))
            && (r.Ok? ==>
                  var (data, fullLength) := answer.value;
                  && r.value == (|data|, fullLength)
                  && LoadedBytes(m, m', addr, data, sizeAddr, fullLength)
                  && LoadedFlags(m, m', addr, |data|, sizeAddr)
                  && LoadedPages(m, pages, pages', addr, |data|, id, offset)
                  && (Apart(addr, |data|, sizeAddr) ==> Load(m', sizeAddr, 8) == Ok(fullLength)))
            && (r.Err? ==>
                  || (m', pages') == (m, pages)
                  || (answer.Some? && LoadedBytes(m, m', addr, [], sizeAddr, answer.value.1)))
  {
    hide StoreLoaded, Placeable, LoadedBytes, LoadedFlags, LoadedPages, Load, Apart;
    var answer := load(id, offset, length);
    if answer.Some? && |answer.value.0| < 0x1_0000_0000_0000_0000 {
      var (data, fullLength) := answer.value;
      LoadedLaw(m, pages, addr, data, fullLength, id, offset, sizeAddr);
      var (m', _, s) := StoreLoaded(m, pages, addr, data, fullLength, id, offset, sizeAddr);
      if s.Pass? && Apart(addr, |data|, sizeAddr) {
        LengthIsRead(m, m', addr, data, sizeAddr, fullLength);
      }
    }
  }

  predicate Apart(addr: nat, size: nat, sizeAddr: nat) {
    size == 0 || sizeAddr + 8 <= addr || addr + size <= sizeAddr
  }

  lemma LengthIsRead(m: Mem, m': Mem, addr: nat, data: seq<byte>, sizeAddr: u64, fullLength: u64)
    requires LoadedBytes(m, m', addr, data, sizeAddr, fullLength) && Apart(addr, |data|, sizeAddr)
    ensures Load(m', sizeAddr, 8) == Ok(fullLength)
  {
    hide ByteOf, ToLe, FromLe;
    var word := m'.data[sizeAddr..sizeAddr + 8];
    forall k | 0 <= k < 8
      ensures word[k] == ToLe(fullLength, 8)[k]
    {
      ByteAt(fullLength, 8, k);
    }
    assert word == ToLe(fullLength, 8);
    LeRoundTrip(fullLength, 8);
    LoadSucceeds(m', sizeAddr, 8);
  }

  lemma LoadedLaw(m: Mem, pages: PageMap, addr: u64, data: seq<byte>, fullLength: u64, id: Id, offset: u64,
                  sizeAddr: u64)
    requires |data| < 0x1_0000_0000_0000_0000
    ensures var (m', pages', s) := StoreLoaded(m, pages, addr, data, fullLength, id, offset, sizeAddr);
            && (s.Pass? <==> Placeable(m, addr, |data|, sizeAddr))
            && (s.Pass? ==>
                  && LoadedBytes(m, m', addr, data, sizeAddr, fullLength)
                  && LoadedFlags(m, m', addr, |data|, sizeAddr)
                  && LoadedPages(m, pages, pages', addr, |data|, id, offset))
            && (s.Fail? ==> (m', pages') == (m, pages) || LoadedBytes(m, m', addr, [], sizeAddr, fullLength))
  {
    hide StoreWord, Store, UntrackPages, TrackPages, ByteOf;
    WordIsStored(m, sizeAddr, fullLength, 8);
    var m1 := StoreWord(m, sizeAddr, fullLength, 8).0;
    if Storable(m, sizeAddr, 8) {
      if data == [] {
        NothingPlaced(m1, pages, addr, id, offset);
      } else if Storable(m, addr, |data|) {
        assert Storable(m1, addr, |data|);
        PlacedData(m1, pages, addr, data, id, offset);
      } else {
        assert !Storable(m1, addr, |data|);
        NotPlaced(m1, pages, addr, data, id, offset);
      }
    }
  }

  lemma NothingPlaced(m: Mem, pages: PageMap, addr: u64, id: Id, offset: u64)
    ensures UntrackPages(m, pages, addr, 0) == (m, pages, Pass)
    ensures Store(m, addr, []) == (m, Pass)
    ensures TrackPages(m, pages, addr, 0, id, offset) == (m, pages, Pass)
  {
    hide RoundUp;
  }
}
