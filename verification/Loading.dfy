/** What `init_pages` leaves in memory, byte by byte and flag by flag. */
module Loading {
  import opened Words
  import opened Outcomes
  import opened Pages
  import opened PageLemmas

  /** Byte `k` of a loaded segment: padding, the source as far as it fits, then zeros. */
  function SegmentByte(source: Option<seq<byte>>, offset: nat, k: nat): byte {
    if source.Some? && offset <= k < offset + |source.value| then source.value[k - offset] else 0
  }

  /** `m'` is `m` with the segment at `[addr, addr + size)` loaded and its pages marked dirty. */
  ghost predicate Filled(m: Mem, m': Mem, addr: nat, size: nat, source: Option<seq<byte>>, offset: nat) {
    && |m'.data| == |m.data| && m'.lr == m.lr
    && (forall i :: 0 <= i < |m.data| ==>
          m'.data[i] == if addr <= i < addr + size then SegmentByte(source, offset, i - addr) else m.data[i])
    && (forall p :: 0 <= p < |m.flags| ==>
          m'.flags[p] == if Touches(addr, size, p) then m.flags[p].Or(DIRTY) else m.flags[p])
  }

  lemma RawStoreInRange(m: Mem, addr: u64, bytes: seq<byte>)
    requires addr + |bytes| <= |m.data|
    ensures RawStore(m, addr, bytes) == (Put(m, addr, bytes), Pass)
  {
    if bytes == [] {
      PutNothing(m, addr);
    }
  }

  /** The bytes that `fill_page_data` writes, laid end to end. */
  function SegmentBytes(size: nat, source: Option<seq<byte>>, offset: nat): (s: seq<byte>)
    requires offset <= size
    ensures |s| == size
    ensures forall k :: 0 <= k < size ==> s[k] == SegmentByte(source, offset, k)
  {
    var piece := if source.Some? then source.value[..Min(size - offset, |source.value|)] else [];
    Repeat(offset, 0) + piece + Repeat(size - offset - |piece|, 0)
  }

  /** `fill_page_data` in range cannot fail, and is one write of the whole segment. */
  lemma FillIsPut(m: Mem, addr: u64, size: nat, source: Option<seq<byte>>, offset: nat)
    requires addr + size <= |m.data| && offset <= size
    ensures FillPageData(m, addr, size, source, offset) == (Put(m, addr, SegmentBytes(size, source, offset)), Pass)
  {
    var piece := if source.Some? then source.value[..Min(size - offset, |source.value|)] else [];
    var head, tail := Repeat(offset, 0), Repeat(size - offset - |piece|, 0);
    RawStoreInRange(m, addr, head);
    var m1 := Put(m, addr, head);
    RawStoreInRange(m1, addr + offset, piece);
    var m2 := Put(m1, addr + offset, piece);
    RawStoreInRange(m2, addr + offset + |piece|, tail);
    PutSplit(m, addr, head, piece);
    assert m2 == Put(m, addr, head + piece);
    PutSplit(m, addr, head + piece, tail);
    assert FillFromSource(m1, addr, size, source, offset) == FillTail(m2, addr, size, offset + |piece|);
  }

  lemma FillExact(m: Mem, addr: u64, size: nat, source: Option<seq<byte>>, offset: nat)
    requires addr + size <= |m.data| && offset <= size
    ensures FillPageData(m, addr, size, source, offset).1.Pass?
    ensures Filled(m, FillPageData(m, addr, size, source, offset).0, addr, size, source, offset)
  {
    FillIsPut(m, addr, size, source, offset);
  }

  ghost predicate NoneFreezed(m: Mem, page: nat, end: nat)
    requires end <= |m.flags|
  {
    forall p :: page <= p < end ==> !m.flags[p].freezed
  }

  /** `init_pages` succeeds exactly on an aligned range inside memory with no freezed page and
      padding that fits. */
  lemma InitPagesSucceeds(m: Mem, addr: u64, size: u64, flags: PageFlags, source: Option<seq<byte>>, offset: u64)
    ensures InitPages(m, addr, size, flags, source, offset).1.Pass? <==> Loadable(m, addr, size, offset)
  {
    if InRange(m, addr, size, offset) {
      FillExact(FlagPages(m, addr / 4096, addr / 4096 + size / 4096, flags).0, addr, size, source, offset);
    }
  }

  /** When it succeeds, the range holds the segment, its pages are dirty and carry the new flags,
      and everything else is as before. */
  lemma InitPagesExact(m: Mem, addr: u64, size: u64, flags: PageFlags, source: Option<seq<byte>>, offset: u64)
    requires Loadable(m, addr, size, offset)
    ensures Loaded(m, InitPages(m, addr, size, flags, source, offset).0, addr, size, flags, source, offset)
  {
    hide Pages.FillPageData, Pages.Put, RoundUp, Wrap;
    var page, end := addr / 4096, addr / 4096 + size / 4096;
    var flagged := AddFlags(m, page, end, flags);
    assert FlagPages(m, page, end, flags) == (flagged, Pass);
    var m' := FillPageData(flagged, addr, size, source, offset).0;
    FillExact(flagged, addr, size, source, offset);
    assert CheckInit(m, addr, size, offset).Pass?;
    assert InitPages(m, addr, size, flags, source, offset).0 == m' by {
      hide FlagPages, CheckInit;
    }
    forall p | 0 <= p < |m.flags|
      ensures m'.flags[p] == if page <= p < end then m.flags[p].Or(flags).Or(DIRTY) else m.flags[p]
    {
      TouchesAligned(page, end, p);
    }
  }

  ghost predicate InRange(m: Mem, addr: nat, size: nat, offset: nat) {
    addr % 4096 == 0 && size % 4096 == 0 && addr + size <= |m.data| && offset <= size
  }

  ghost predicate Loadable(m: Mem, addr: nat, size: nat, offset: nat) {
    InRange(m, addr, size, offset) && NoneFreezed(m, addr / 4096, addr / 4096 + size / 4096)
  }

  ghost predicate Loaded(m: Mem, m': Mem, addr: nat, size: nat, flags: PageFlags, source: Option<seq<byte>>,
                         offset: nat) {
    && |m'.data| == |m.data| && m'.lr == m.lr
    && (forall i :: 0 <= i < |m.data| ==>
          m'.data[i] == if addr <= i < addr + size then SegmentByte(source, offset, i - addr) else m.data[i])
    && (forall p :: 0 <= p < |m.flags| ==>
          m'.flags[p] ==
          if addr / 4096 <= p < addr / 4096 + size / 4096 then m.flags[p].Or(flags).Or(DIRTY) else m.flags[p])
  }

  // ---- Words in memory ----

  /** A stored word, cut to its width, is what is loaded back, and nothing apart from it reads
      differently. */
  lemma StoreThenLoad(m: Mem, addr: u64, word: u64, n: nat, other: u64, k: nat)
    requires 0 < n <= 8 && StoreWord(m, addr, word, n).1.Pass?
    requires 0 < k <= 8 && (other + k <= addr || addr + n <= other)
    ensures Load(StoreWord(m, addr, word, n).0, addr, n) == Ok(word % Pow256(n))
    ensures Load(StoreWord(m, addr, word, n).0, other, k) == Load(m, other, k)
  {
    hide FromLe, ToLe;
    var m' := StoreWord(m, addr, word, n).0;
    assert m'.data[addr..addr + n] == ToLe(word, n);
    LeTruncates(word, n);
    if CheckNoOverflow(other, k, |m.data|).Pass? {
      assert m'.data[other..other + k] == m.data[other..other + k];
    }
  }
}
