/** `WXorXMemory<M>`: the write-xor-execute checks in front of either backend. */
module WXorX {
  import opened Words
  import opened Outcomes
  import opened Pages
  import opened PageLemmas
  import opened Flat
  import opened Sparse

  /** The type parameter `M: Memory`, as the two memories it is used with. */
  datatype Backend = FlatBacked(flat: FlatMemory) | SparseBacked(sparse: SparseMemory) {

    ghost function Objects(): set<object> {
      match this
      case FlatBacked(f) => {f, f.data, f.flags}
      case SparseBacked(s) => {s}
    }

    ghost predicate Valid()
      reads Objects()
    {
      match this
      case FlatBacked(f) => f.Valid()
      case SparseBacked(s) => s.Valid()
    }

    ghost function Contents(): Mem
      reads Objects()
      requires Valid()
    {
      match this
      case FlatBacked(f) => f.Contents()
      case SparseBacked(s) => s.Contents()
    }

    method Size() returns (n: nat)
      requires Valid()
      ensures n == |Contents().data|
    {
      match this {
        case FlatBacked(f) => n := f.memorySize;
        case SparseBacked(s) => n := s.memorySize;
      }
    }

    method StoreBytes(addr: u64, value: seq<byte>) returns (s: Status)
      requires Valid() && (value == [] || addr + |value| <= |Contents().data|)
      modifies Objects()
      ensures Valid() && (Contents(), s) == RawStore(old(Contents()), addr, value)
    {
      match this {
        case FlatBacked(f) => s := f.StoreBytes(addr, value);
        case SparseBacked(sp) =>
          s := sp.StoreBytes(addr, value);
          assert value[..|value|] == value;
      }
    }

    method StoreByte(addr: u64, size: nat, value: byte) returns (s: Status)
      requires Valid() && (size == 0 || addr + size <= |Contents().data|)
      modifies Objects()
      ensures Valid() && (Contents(), s) == RawStore(old(Contents()), addr, Repeat(size, value))
    {
      match this {
        case FlatBacked(f) => s := f.StoreByte(addr, size, value);
        case SparseBacked(sp) =>
          s := sp.StoreByte(addr, size, value);
          ghost var filling := Repeat(size, value);
          assert filling[..size] == filling;
      }
    }

    /** Agrees with the flat memory, except that a page-wise load reports the page it could not
        reach, not the address it was asked for. */
    method Load(addr: u64, n: nat) returns (r: Result<u64>)
      requires Valid() && 0 < n <= 8
      modifies Objects()
      ensures Valid() && Contents() == old(Contents())
      ensures r == if FlatBacked? then Pages.Load(Contents(), addr, n) else SparseLoad(Contents(), addr, n)
    {
      match this {
        case FlatBacked(f) => r := f.Load(addr, n);
        case SparseBacked(s) => r := s.Load(addr, n);
      }
    }

    method LoadBytes(addr: u64, size: nat) returns (r: Result<seq<byte>>)
      requires Valid()
      modifies Objects()
      ensures Valid() && Contents() == old(Contents())
      ensures r == Pages.LoadBytes(Contents(), addr, size)
    {
      match this {
        case FlatBacked(f) => r := f.LoadBytes(addr, size);
        case SparseBacked(s) => r := s.LoadBytes(addr, size);
      }
    }

    method FetchFlag(page: u64) returns (r: Result<PageFlags>)
      requires Valid()
      ensures r == Pages.FetchFlag(Contents(), page)
    {
      match this {
        case FlatBacked(f) => r := f.FetchFlag(page);
        case SparseBacked(s) => r := s.FetchFlag(page);
      }
    }

    method SetFlag(page: u64, flag: PageFlags) returns (s: Status)
      requires Valid()
      modifies Objects()
      ensures Valid() && (Contents(), s) == Pages.SetFlag(old(Contents()), page, flag)
    {
      match this {
        case FlatBacked(f) => s := f.SetFlag(page, flag);
        case SparseBacked(sp) => s := sp.SetFlag(page, flag);
      }
    }

    method ClearFlag(page: u64, flag: PageFlags) returns (s: Status)
      requires Valid()
      modifies Objects()
      ensures Valid() && (Contents(), s) == Pages.ClearFlag(old(Contents()), page, flag)
    {
      match this {
        case FlatBacked(f) => s := f.ClearFlag(page, flag);
        case SparseBacked(sp) => s := sp.ClearFlag(page, flag);
      }
    }

    method Lr() returns (value: u64)
      requires Valid()
      ensures value == Contents().lr
    {
      match this {
        case FlatBacked(f) => value := f.lr;
        case SparseBacked(s) => value := s.lr;
      }
    }

    method SetLr(value: u64)
      requires Valid()
      modifies Objects()
      ensures Valid() && Contents() == old(Contents()).(lr := value)
    {
      match this {
        case FlatBacked(f) => f.SetLr(value);
        case SparseBacked(s) => s.SetLr(value);
      }
    }

    /** `init_pages` of a backend: `fill_page_data`. */
    method FillPageData(addr: u64, size: u64, source: Option<seq<byte>>, offset: u64) returns (s: Status)
      requires Valid() && addr + size <= |Contents().data|
      modifies Objects()
      ensures Valid() && (Contents(), s) == Pages.FillPageData(old(Contents()), addr, size, source, offset)
    {
      hide Pages.Put, Repeat;
      var written := 0;
      if offset > 0 {
        written := Min(size, offset);
        s := StoreByte(addr, written, 0);
        if s.Fail? {
          return;
        }
      }
      assert Pages.FillPageData(old(Contents()), addr, size, source, offset)
          == FillFromSource(Contents(), addr, size, source, written);
      if source.Some? {
        var n := Min(size - written, |source.value|);
        if n > 0 {
          s := StoreBytes(addr + written, source.value[..n]);
          if s.Fail? {
            return;
          }
          written := written + n;
        }
      }
      assert Pages.FillPageData(old(Contents()), addr, size, source, offset)
          == FillTail(Contents(), addr, size, written);
      if written < size {
        s := StoreByte(addr + written, size - written, 0);
        if s.Fail? {
          return;
        }
      }
      return Pass;
    }
  }

  class WXorXMemory {
    const inner: Backend

    ghost predicate Valid()
      reads inner.Objects()
    {
      inner.Valid()
    }

    ghost function Contents(): Mem
      reads inner.Objects()
      requires Valid()
    {
      inner.Contents()
    }

    constructor (inner: Backend)
      requires inner.Valid()
      ensures this.inner == inner
    {
      this.inner := inner;
    }

    method CheckPermission(first: u64, last: nat, exec: bool) returns (s: Status)
      requires Valid() && last < 0x10_0000_0000_0000
      ensures s == Pages.CheckPermission(Contents(), first, last, exec)
    {
      var page := first;
      while page <= last
        invariant first <= page <= last + 1 || page == first
        invariant Pages.CheckPermission(Contents(), first, last, exec)
               == Pages.CheckPermission(Contents(), page, last, exec)
        decreases last + 1 - page
      {
        var flag := inner.FetchFlag(page);
        if flag.Err? {
          return Fail(flag.error);
        }
        if flag.value.executable != exec {
          return Fail(MemWriteOnExecutablePage(page));
        }
        page := page + 1;
      }
      return Pass;
    }

    method StoreBytes(addr: u64, value: seq<byte>) returns (s: Status)
      requires Valid()
      modifies inner.Objects()
      ensures Valid() && (Contents(), s) == Store(old(Contents()), addr, value)
    {
      if value == [] {
        return Pass;
      }
      var size := inner.Size();
      s := CheckNoOverflow(addr, |value|, size);
      if s.Fail? {
        return;
      }
      s := CheckPermission(addr / 4096, (addr + |value| - 1) / 4096, false);
      if s.Fail? {
        return;
      }
      s := inner.StoreBytes(addr, value);
    }

    method StoreByte(addr: u64, n: nat, value: byte) returns (s: Status)
      requires Valid()
      modifies inner.Objects()
      ensures Valid() && (Contents(), s) == Store(old(Contents()), addr, Repeat(n, value))
    {
      if n == 0 {
        return Pass;
      }
      var size := inner.Size();
      s := CheckNoOverflow(addr, n, size);
      if s.Fail? {
        return;
      }
      s := CheckPermission(addr / 4096, (addr + n - 1) / 4096, false);
      if s.Fail? {
        return;
      }
      s := inner.StoreByte(addr, n, value);
    }

    /** `store8` to `store64`. */
    method StoreWord(addr: u64, value: u64, n: nat) returns (s: Status)
      requires Valid() && 0 < n <= 8
      modifies inner.Objects()
      ensures Valid() && (Contents(), s) == Pages.StoreWord(old(Contents()), addr, value, n)
    {
      s := StoreBytes(addr, ToLe(value, n));
    }

    /** `execute_load16` and `execute_load32`. */
    method ExecuteLoad(addr: u64, n: nat) returns (r: Result<u64>)
      requires Valid() && 0 < n <= 8
      modifies inner.Objects()
      ensures Valid() && Contents() == old(Contents())
      ensures r == Pages.ExecuteLoad(Contents(), addr, n)
    {
      var size := inner.Size();
      var s := CheckNoOverflow(addr, n, size);
      if s.Fail? {
        return Err(s.error);
      }
      s := CheckPermission(addr / 4096, (addr + n - 1) / 4096, true);
      if s.Fail? {
        return Err(s.error);
      }
      r := inner.Load(addr, n);
    }

    /** The page loop of `init_pages`. */
    method FlagPages(first: nat, end: nat, flags: PageFlags) returns (s: Status)
      requires Valid() && first <= end <= |Contents().flags|
      modifies inner.Objects()
      ensures Valid() && (Contents(), s) == Pages.FlagPages(old(Contents()), first, end, flags)
      ensures |Contents().data| == |old(Contents()).data|
    {
      var page := first;
      ghost var m := Contents();
      AddNoFlags(m, first, flags);
      while page < end
        invariant Valid() && first <= page <= end
        invariant FirstFreezed(m.flags, first, end) == FirstFreezed(m.flags, page, end)
        invariant Contents() == AddFlags(m, first, page, flags)
      {
        var flag := inner.FetchFlag(page);
        if flag.value.freezed {
          return Fail(MemWriteOnFreezedPage(page));
        }
        s := inner.SetFlag(page, flags);
        AddFlagsStep(m, first, page, flags);
        page := page + 1;
      }
      return Pass;
    }

    method CheckInit(addr: u64, size: u64, offset: u64) returns (s: Status)
      requires Valid()
      ensures s == Pages.CheckInit(Contents(), addr, size, offset)
    {
      var memorySize := inner.Size();
      if RoundDown(addr) != addr {
        return Fail(MemPageUnalignedAccess(addr));
      }
      if RoundUp(size) != size {
        return Fail(MemPageUnalignedAccess(Wrap(addr + size)));
      }
      if addr > memorySize {
        return Fail(MemOutOfBound(addr, Memory));
      }
      if size > memorySize || addr + size > memorySize {
        return Fail(MemOutOfBound(Wrap(addr + size), Memory));
      }
      if offset > size {
        return Fail(MemOutOfBound(offset, ExternalData));
      }
      return Pass;
    }

    method InitPages(addr: u64, size: u64, flags: PageFlags, source: Option<seq<byte>>, offset: u64) returns (s: Status)
      requires Valid()
      modifies inner.Objects()
      ensures Valid() && (Contents(), s) == Pages.InitPages(old(Contents()), addr, size, flags, source, offset)
    {
      hide Pages.FillPageData, Pages.FlagPages, RoundUp;
      s := CheckInit(addr, size, offset);
      if s.Fail? {
        return;
      }
      s := FlagPages(addr / 4096, addr / 4096 + size / 4096, flags);
      if s.Fail? {
        return;
      }
      s := inner.FillPageData(addr, size, source, offset);
    }
  }
}
