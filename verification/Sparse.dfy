/** `SparseMemory`: pages allocated on first use. */
module Sparse {
  import opened Words
  import opened Outcomes
  import opened Pages
  import opened PageLemmas

  const INVALID_PAGE_INDEX: nat := 0xFFFF

  /** The byte that the page table `indices` and the page store `pages` show at address `i`. */
  function ByteAt(indices: seq<nat>, pages: seq<seq<byte>>, i: nat): byte
    requires Mapped(indices, pages) && i < 4096 * |indices|
  {
    var slot := indices[i / 4096];
    if slot == 0xFFFF then 0 else pages[slot][i % 4096]
  }

  /** Every page table entry is the reserved 0xFFFF or a stored page. */
  ghost predicate Mapped(indices: seq<nat>, pages: seq<seq<byte>>) {
    && |indices| <= 65535
    && |pages| <= 65535
    && (forall k :: 0 <= k < |pages| ==> |pages[k]| == 4096)
    && (forall p :: 0 <= p < |indices| ==> indices[p] < |pages| || indices[p] == 0xFFFF)
  }

  /** `owner` inverts the page table: every stored page belongs to exactly one page, so no two
      pages share a slot. */
  ghost predicate Owned(indices: seq<nat>, owner: seq<nat>) {
    && (forall k :: 0 <= k < |owner| ==> owner[k] < |indices| && indices[owner[k]] == k)
    && (forall p :: 0 <= p < |indices| && indices[p] < |owner| ==> owner[indices[p]] == p)
  }

  ghost function Below(n: nat): (s: set<nat>)
    ensures |s| == n && forall k: nat :: k in s <==> k < n
  {
    if n == 0 then {} else Below(n - 1) + {n - 1}
  }

  ghost function Elements(s: seq<nat>): (r: set<nat>)
    ensures |r| <= |s| && forall k :: k in s ==> k in r
  {
    if s == [] then {} else Elements(s[1..]) + {s[0]}
  }

  lemma {:induction false} SubsetCount(a: set<nat>, b: set<nat>)
    requires a <= b
    ensures |a| <= |b|
  {
    if a != {} {
      var x :| x in a;
      SubsetCount(a - {x}, b - {x});
    }
  }

  /** While some page is unallocated there are fewer stored pages than pages, so the next slot
      number is below the reserved 0xFFFF. */
  lemma FreeSlot(indices: seq<nat>, owner: seq<nat>)
    requires Owned(indices, owner) && 0xFFFF in indices && |owner| <= 65535
    ensures |owner| < |indices|
  {
    var used := Below(|owner|);
    assert 0xFFFF !in used;
    forall k: nat | k < |owner|
      ensures k in indices
    {
      assert indices[owner[k]] == k;
    }
    assert used + {0xFFFF} <= Elements(indices);
    SubsetCount(used + {0xFFFF}, Elements(indices));
  }

  /** `as u16` */
  function AsU16(x: nat): nat {
    x % 0x1_0000
  }

  /** What the page table and the number of stored pages become when page `p` is fetched. */
  function Fetched(indices: seq<nat>, stored: nat, p: nat): (seq<nat>, nat)
    requires p < |indices|
  {
    if indices[p] == INVALID_PAGE_INDEX then (indices[p := AsU16(stored)], stored + 1) else (indices, stored)
  }

  /** A new page gets a slot of its own, and keeps it, exactly while fewer than 65535 pages are stored.
      The 65536th would be given the reserved number, so that its next use stores yet another page,
      in the slot of the first. */
  lemma SlotLasts(indices: seq<nat>, stored: nat, p: nat)
    requires p < |indices| && indices[p] == INVALID_PAGE_INDEX && stored <= 65535
    ensures var (once, n) := Fetched(indices, stored, p);
            var (twice, n') := Fetched(once, n, p);
            && (once[p] == stored && twice == once && n' == n <==> stored < 65535)
            && (stored == 65535 ==> twice[p] == 0 && n' == 65537)
  {
    var (once, n) := Fetched(indices, stored, p);
    assert n == stored + 1 && once[p] == AsU16(stored);
  }

  /** Where a page-by-page walk over `total` bytes from `addr` stands after `done` of them. */
  ghost predicate OnTrack(addr: nat, done: nat, total: nat, pageAddr: nat, offset: int, memorySize: nat) {
    && pageAddr % 4096 == 0
    && (done < total ==> pageAddr + offset == addr + done && 0 <= offset < 4096)
    && (0 < done < total ==> offset == 0)
    && (0 < done ==> addr + done <= memorySize)
  }

  lemma OnTrackStep(addr: nat, done: nat, total: nat, pageAddr: nat, offset: nat, memorySize: nat)
    requires OnTrack(addr, done, total, pageAddr, offset, memorySize) && done < total
    requires pageAddr < memorySize && memorySize % 4096 == 0
    ensures OnTrack(addr, done + Min(4096 - offset, total - done), total, pageAddr + 4096, 0, memorySize)
  {
  }

  /** How much of a write of `n` bytes at `addr` lands before the end of memory. */
  function Landed(addr: nat, n: nat, memorySize: nat): nat {
    if addr >= memorySize then 0 else Min(n, memorySize - addr)
  }

  /** The first `done` bytes of a write at `addr` have landed. */
  ghost function PutPrefix(m: Mem, addr: nat, value: seq<byte>, done: nat): Mem
    requires done <= |value| && (done > 0 ==> addr + done <= |m.data|)
  {
    if done == 0 then m else Put(m, addr, value[..done])
  }

  lemma PutPrefixStep(m: Mem, addr: nat, value: seq<byte>, done: nat, n: nat)
    requires 0 < n && done + n <= |value| && addr + done + n <= |m.data|
    ensures PutPrefix(m, addr, value, done + n)
         == Put(PutPrefix(m, addr, value, done), addr + done, value[done..done + n])
  {
    if done > 0 {
      PutSplit(m, addr, value[..done], value[done..done + n]);
    }
    assert value[..done] + value[done..done + n] == value[..done + n];
  }

  /** What a page-by-page walk from `addr` off the end reports: the first page outside memory. */
  function RunsOff(m: Mem, addr: u64): Error {
    MemOutOfBound(if addr >= |m.data| then RoundDown(addr) else |m.data|, Memory)
  }

  /** A load as the flat memory does it, up to the address it reports on failure. */
  function SparseLoad(m: Mem, addr: u64, n: nat): Result<u64>
    requires 0 < n <= 8
  {
    if Pages.Load(m, addr, n).Ok? then Pages.Load(m, addr, n) else Err(RunsOff(m, addr))
  }

  class SparseMemory {
    var indices: seq<nat>
    var pages: seq<seq<byte>>
    var flags: seq<PageFlags>
    var memorySize: nat
    var lr: u64
    ghost var owner: seq<nat>

    ghost predicate Valid()
      reads this
    {
      && Mapped(indices, pages) && |owner| == |pages| && Owned(indices, owner)
      && |flags| == |indices| && memorySize == 4096 * |indices|
    }

    /** The flat memory this object stands for. */
    ghost function Contents(): Mem
      reads this
      requires Valid()
    {
      var ix, pg := indices, pages;
      MemBase(seq(memorySize, i requires 0 <= i < 4096 * |ix| && Mapped(ix, pg) => ByteAt(ix, pg, i)), flags, lr)
    }

    constructor (memorySize: nat)
      requires memorySize % 4096 == 0 && memorySize / 4096 <= 65535
      ensures Valid() && this.memorySize == memorySize
      ensures Contents() == MemBase(Repeat(memorySize, 0), seq(memorySize / 4096, _ => NONE), 0xFFFF_FFFF_FFFF_FFFF)
    {
      this.indices := seq(memorySize / 4096, _ => 0xFFFF);
      this.pages := [];
      this.owner := [];
      this.flags := seq(memorySize / 4096, _ => NONE);
      this.memorySize := memorySize;
      this.lr := 0xFFFF_FFFF_FFFF_FFFF;
    }

    /** Finds the slot of the page at `alignedAddr`, giving it a zero page if it has none. */
    method FetchPage(alignedAddr: u64) returns (r: Result<nat>)
      requires Valid()
      modifies this`indices, this`pages, this`owner
      ensures Valid() && Contents() == old(Contents())
      ensures r.Ok? <==> alignedAddr / 4096 < |indices|
      ensures r.Ok? ==> r.value == indices[alignedAddr / 4096] && r.value < |pages|
      ensures r.Ok? ==> (indices, |pages|) == Fetched(old(indices), |old(pages)|, alignedAddr / 4096)
      ensures r.Err? ==> r.error == MemOutOfBound(alignedAddr, Memory)
    {
      var page := alignedAddr / 4096;
      if page >= |indices| {
        return Err(MemOutOfBound(alignedAddr, Memory));
      }
      var index := indices[page];
      if index == INVALID_PAGE_INDEX {
        FreeSlot(indices, owner);
        pages := pages + [Repeat(4096, 0)];
        index := AsU16(|pages| - 1);
        indices := indices[page := index];
        owner := owner + [page];
        assert Contents().data == old(Contents()).data;
      }
      return Ok(index);
    }

    /** `n` bytes of the page at `pageAddr`, from `offset` on. */
    method ReadChunk(pageAddr: u64, offset: nat, n: nat) returns (r: Result<seq<byte>>)
      requires Valid() && pageAddr % 4096 == 0 && offset + n <= 4096
      modifies this`indices, this`pages, this`owner
      ensures Valid() && Contents() == old(Contents())
      ensures r.Ok? <==> pageAddr < memorySize
      ensures r.Ok? ==> r.value == Contents().data[pageAddr + offset..pageAddr + offset + n]
      ensures r.Err? ==> r.error == MemOutOfBound(pageAddr, Memory)
    {
      var fetched := FetchPage(pageAddr);
      if fetched.Err? {
        return Err(fetched.error);
      }
      var chunk := pages[fetched.value][offset..offset + n];
      forall k | 0 <= k < n
        ensures chunk[k] == Contents().data[pageAddr + offset + k]
      {
        assert (pageAddr + offset + k) / 4096 == pageAddr / 4096;
      }
      return Ok(chunk);
    }

    /** The bytes of one page, then those that spill onto the next. */
    method ReadSpan(addr: u64, n: nat) returns (r: Result<seq<byte>>)
      requires Valid() && 0 < n <= 8
      modifies this`indices, this`pages, this`owner
      ensures Valid() && Contents() == old(Contents())
      ensures r.Ok? <==> addr + n <= memorySize
      ensures r.Ok? ==> r.value == Contents().data[addr..addr + n]
      ensures r.Err? ==> r.error == RunsOff(Contents(), addr)
    {
      hide Mapped, Owned, Put, ByteAt;
      var pageAddr := RoundDown(addr);
      var firstPageBytes := Min(n, 4096 - (addr - pageAddr));
      r := ReadChunk(pageAddr, addr - pageAddr, firstPageBytes);
      if r.Ok? && firstPageBytes < n {
        var second := ReadChunk(pageAddr + 4096, 0, n - firstPageBytes);
        if second.Err? {
          return second;
        }
        Adjacent(Contents().data, addr, pageAddr + 4096, addr + n);
        return Ok(r.value + second.value);
      }
    }

    /** `load`. */
    method Load(addr: u64, n: nat) returns (r: Result<u64>)
      requires Valid() && 0 < n <= 8
      modifies this`indices, this`pages, this`owner
      ensures Valid() && Contents() == old(Contents())
      ensures r == SparseLoad(Contents(), addr, n)
    {
      var bytes := ReadSpan(addr, n);
      if bytes.Err? {
        return Err(bytes.error);
      }
      var value := Accumulate(bytes.value);
      r := Ok(value);
    }

    /** `value |= byte << shift; shift += 8` over the bytes read: the bits below `shift` are
        already in, so or is addition, and `scale` is `1 << shift`. */
    static method Accumulate(bytes: seq<byte>) returns (value: u64)
      requires |bytes| <= 8
      ensures value == LeWord(bytes)
    {
      var v, scale: nat := 0, 1;
      for k := 0 to |bytes|
        invariant v == FromLe(bytes[..k]) && scale == Pow256(k)
      {
        assert bytes[..k + 1] == bytes[..k] + [bytes[k]];
        FromLeSnoc(bytes[..k], bytes[k]);
        Pow256Step(k);
        v := v + bytes[k] * scale;
        scale := 256 * scale;
      }
      assert bytes[..|bytes|] == bytes;
      return v;
    }

    /** Write a chunk that stays inside the page at `pageAddr`, and mark the page dirty. */
    method WriteChunk(pageAddr: u64, offset: nat, chunk: seq<byte>) returns (s: Status)
      requires Valid() && pageAddr % 4096 == 0 && 0 < |chunk| && offset + |chunk| <= 4096
      modifies this`indices, this`pages, this`owner, this`flags
      ensures Valid() && memorySize == old(memorySize)
      ensures s.Pass? <==> pageAddr < memorySize
      ensures s.Pass? ==> Contents() == Put(old(Contents()), pageAddr + offset, chunk)
      ensures s.Fail? ==> Contents() == old(Contents()) && s.error == MemOutOfBound(pageAddr, Memory)
    {
      var fetched := FetchPage(pageAddr);
      if fetched.Err? {
        return Fail(fetched.error);
      }
      var slot, page := fetched.value, pageAddr / 4096;
      ghost var m := Contents();
      pages := pages[slot := pages[slot][..offset] + chunk + pages[slot][offset + |chunk|..]];
      flags := flags[page := flags[page].Or(DIRTY)];
      var after := Put(m, pageAddr + offset, chunk);
      forall i | 0 <= i < memorySize
        ensures Contents().data[i] == after.data[i]
      {
        assert i / 4096 == page <==> pageAddr <= i < pageAddr + 4096;
      }
      forall p | 0 <= p < |flags|
        ensures flags[p] == after.flags[p]
      {
        assert Touches(pageAddr + offset, |chunk|, p) <==> p == page;
      }
      assert Contents().data == after.data;
      assert Contents().flags == after.flags;
      return Pass;
    }

    /** One round of a page-by-page write of `whole` to `addr`, of which `done` bytes have landed. */
    method WriteNext(ghost m: Mem, ghost addr: nat, ghost whole: seq<byte>, ghost done: nat,
                     pageAddr: u64, offset: nat, chunk: seq<byte>) returns (s: Status)
      requires Valid() && memorySize == |m.data| && done < |whole|
      requires OnTrack(addr, done, |whole|, pageAddr, offset, memorySize)
      requires Contents() == PutPrefix(m, addr, whole, done)
      requires |chunk| == Min(4096 - offset, |whole| - done) && chunk == whole[done..done + |chunk|]
      modifies this`indices, this`pages, this`owner, this`flags
      ensures Valid() && memorySize == |m.data|
      ensures s.Pass? <==> pageAddr < memorySize
      ensures s.Pass? ==> OnTrack(addr, done + |chunk|, |whole|, pageAddr + 4096, 0, memorySize)
      ensures s.Pass? ==> Contents() == PutPrefix(m, addr, whole, done + |chunk|)
      ensures s.Fail? ==> s.error == MemOutOfBound(pageAddr, Memory) && Contents() == old(Contents())
    {
      hide Mapped, Owned, Put, ByteAt;
      s := WriteChunk(pageAddr, offset, chunk);
      if s.Pass? {
        OnTrackStep(addr, done, |whole|, pageAddr, offset, memorySize);
        PutPrefixStep(m, addr, whole, done, |chunk|);
      }
    }

    /** `store_bytes`: page by page. A write that runs off the end keeps what it wrote so far. */
    method StoreBytes(addr: u64, value: seq<byte>) returns (s: Status)
      requires Valid()
      modifies this`indices, this`pages, this`owner, this`flags
      ensures Valid() && memorySize == old(memorySize)
      ensures s.Pass? <==> Landed(addr, |value|, memorySize) == |value|
      ensures Contents() == PutPrefix(old(Contents()), addr, value, Landed(addr, |value|, memorySize))
      ensures s.Fail? ==> s.error == RunsOff(old(Contents()), addr)
    {
      hide Mapped, Owned, Put, ByteAt;
      ghost var m := Contents();
      var done := 0;
      var pageAddr := RoundDown(addr);
      var offset := addr - pageAddr;
      while done < |value|
        invariant 0 <= done <= |value| && Valid() && memorySize == old(memorySize) == |m.data|
        invariant OnTrack(addr, done, |value|, pageAddr, offset, memorySize)
        invariant Contents() == PutPrefix(m, addr, value, done)
      {
        var n := Min(4096 - offset, |value| - done);
        var chunk := value[done..done + n];
        s := WriteNext(m, addr, value, done, pageAddr, offset, chunk);
        if s.Fail? {
          return s;
        }
        done := done + n;
        pageAddr := pageAddr + 4096;
        offset := 0;
      }
      return Pass;
    }

    /** `store_byte`: the same walk, filling with one byte. */
    method StoreByte(addr: u64, size: nat, value: byte) returns (s: Status)
      requires Valid()
      modifies this`indices, this`pages, this`owner, this`flags
      ensures Valid() && memorySize == old(memorySize)
      ensures s.Pass? <==> Landed(addr, size, memorySize) == size
      ensures Contents() == PutPrefix(old(Contents()), addr, Repeat(size, value), Landed(addr, size, memorySize))
      ensures s.Fail? ==> s.error == RunsOff(old(Contents()), addr)
    {
      hide Mapped, Owned, Put, ByteAt;
      ghost var m := Contents();
      var remaining := size;
      var pageAddr := RoundDown(addr);
      var offset := addr - pageAddr;
      ghost var filling, done := Repeat(size, value), 0;
      while remaining > 0
        invariant 0 <= remaining <= size && done == size - remaining
        invariant Valid() && memorySize == old(memorySize) == |m.data|
        invariant OnTrack(addr, done, size, pageAddr, offset, memorySize)
        invariant Contents() == PutPrefix(m, addr, filling, done)
      {
        var n := Min(4096 - offset, remaining);
        var chunk := Repeat(n, value);
        assert chunk == filling[done..done + n];
        s := WriteNext(m, addr, filling, done, pageAddr, offset, chunk);
        if s.Fail? {
          return s;
        }
        done := done + n;
        remaining := remaining - n;
        pageAddr := pageAddr + 4096;
        offset := 0;
      }
      return Pass;
    }

    /** One round of a page-by-page read of `size` bytes at `addr`, of which `out` have been read. */
    method ReadNext(ghost addr: nat, ghost size: nat, ghost out: seq<byte>, pageAddr: u64, offset: nat, n: nat)
      returns (r: Result<seq<byte>>)
      requires Valid() && |out| < size && addr + size <= memorySize
      requires OnTrack(addr, |out|, size, pageAddr, offset, memorySize)
      requires n == Min(4096 - offset, size - |out|) && out == Contents().data[addr..addr + |out|]
      modifies this`indices, this`pages, this`owner
      ensures Valid() && Contents() == old(Contents())
      ensures OnTrack(addr, |out| + n, size, pageAddr + 4096, 0, memorySize)
      ensures r.Ok? && |r.value| == n && out + r.value == Contents().data[addr..addr + |out| + n]
    {
      hide Mapped, Owned, Put, ByteAt;
      r := ReadChunk(pageAddr, offset, n);
      Adjacent(Contents().data, addr, addr + |out|, addr + |out| + n);
      OnTrackStep(addr, |out|, size, pageAddr, offset, memorySize);
    }

    method LoadBytes(addr: u64, size: nat) returns (r: Result<seq<byte>>)
      requires Valid()
      modifies this`indices, this`pages, this`owner
      ensures Valid() && Contents() == old(Contents())
      ensures r == Pages.LoadBytes(Contents(), addr, size)
    {
      hide Mapped, Owned, Put, ByteAt;
      if size == 0 {
        return Ok([]);
      }
      var check := CheckNoOverflow(addr, size, memorySize);
      if check.Fail? {
        return Err(check.error);
      }
      ghost var m := Contents();
      var out: seq<byte> := [];
      var pageAddr := RoundDown(addr);
      var offset := addr - pageAddr;
      while |out| < size
        invariant |out| <= size && Valid() && memorySize == |m.data| && Contents() == m
        invariant OnTrack(addr, |out|, size, pageAddr, offset, memorySize)
        invariant out == m.data[addr..addr + |out|]
        decreases size - |out|
      {
        var n := Min(4096 - offset, size - |out|);
        var chunk := ReadNext(addr, size, out, pageAddr, offset, n);
        out := out + chunk.value;
        pageAddr := pageAddr + 4096;
        offset := 0;
      }
      return Ok(out);
    }

    method FetchFlag(page: u64) returns (r: Result<PageFlags>)
      requires Valid()
      ensures r == Pages.FetchFlag(Contents(), page)
    {
      if page < |flags| {
        return Ok(flags[page]);
      }
      return Err(MemOutOfBound(Wrap(4096 * page), Memory));
    }

    method SetFlag(page: u64, flag: PageFlags) returns (s: Status)
      requires Valid()
      modifies this`flags
      ensures Valid() && (Contents(), s) == Pages.SetFlag(old(Contents()), page, flag)
    {
      if page < |flags| {
        flags := flags[page := flags[page].Or(flag)];
        assert Contents().data == old(Contents()).data;
        return Pass;
      }
      return Fail(MemOutOfBound(Wrap(4096 * page), Memory));
    }

    method ClearFlag(page: u64, flag: PageFlags) returns (s: Status)
      requires Valid()
      modifies this`flags
      ensures Valid() && (Contents(), s) == Pages.ClearFlag(old(Contents()), page, flag)
    {
      if page < |flags| {
        flags := flags[page := flags[page].Without(flag)];
        assert Contents().data == old(Contents()).data;
        return Pass;
      }
      return Fail(MemOutOfBound(Wrap(4096 * page), Memory));
    }

    method SetLr(value: u64)
      requires Valid()
      modifies this`lr
      ensures Valid() && Contents() == old(Contents()).(lr := value)
    {
      lr := value;
      assert Contents().data == old(Contents()).data;
    }
  }
}
