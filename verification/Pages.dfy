/** The paged memory as a value: what every backend must agree with, and what the
    write-xor-execute layer adds on top. Bounds checks, error payloads and the state left
    behind by a failing call are the source's. */
module Pages {
  import opened Words
  import opened Outcomes

  /** A page's flag byte, as its three bits: FLAG_FREEZED, FLAG_EXECUTABLE and FLAG_DIRTY. A page
      is writable when it is not executable. */
  datatype PageFlags = PageFlags(freezed: bool, executable: bool, dirty: bool) {
    /** `self | f` */
    function Or(f: PageFlags): PageFlags {
      PageFlags(freezed || f.freezed, executable || f.executable, dirty || f.dirty)
    }

    /** `self & !f` */
    function Without(f: PageFlags): PageFlags {
      PageFlags(freezed && !f.freezed, executable && !f.executable, dirty && !f.dirty)
    }
  }

  const NONE := PageFlags(false, false, false)
  const DIRTY := PageFlags(false, false, true)

  datatype MemBase = MemBase(data: seq<byte>, flags: seq<PageFlags>, lr: u64) {
    /** Whole pages only, and below `isize::MAX`, the most a `Vec` can hold. */
    predicate Valid() {
      |data| == 4096 * |flags| && |data| < 0x8000_0000_0000_0000
    }
  }

  type Mem = m: MemBase | m.Valid() witness MemBase([], [], 0)

  function RoundDown(x: u64): u64 {
    x - x % 4096
  }

  /** `x + ((!x + 1) & 4095)`, wrapping: the low bits of `-x` are what is missing to the next page. */
  function RoundUp(x: u64): (r: u64)
    ensures r == x <==> x % 4096 == 0
  {
    Wrap(x + (4096 - x % 4096) % 4096)
  }

  function Min(a: nat, b: nat): nat {
    if a <= b then a else b
  }

  function Repeat(n: nat, value: byte): (s: seq<byte>)
    ensures |s| == n && forall i :: 0 <= i < n ==> s[i] == value
  {
    seq(n, _ => value)
  }

  // ---- Checks ----

  function CheckNoOverflow(addr: u64, size: nat, memorySize: nat): (r: Status)
    ensures r.Pass? <==> addr < memorySize && addr + size <= memorySize && addr + size < 0x1_0000_0000_0000_0000
  {
    if addr >= memorySize then Fail(MemOutOfBound(addr, Memory))
    else if addr + size >= 0x1_0000_0000_0000_0000 || addr + size > memorySize then
      Fail(MemOutOfBound(Wrap(addr + size), Memory))
    else Pass
  }

  /** Page `p` holds one of the `n` bytes from `addr` on. */
  predicate Touches(addr: nat, n: nat, p: nat) {
    n > 0 && addr / 4096 <= p <= (addr + n - 1) / 4096
  }

  predicate PagesAre(m: Mem, lo: nat, hi: nat, exec: bool) {
    lo <= hi ==> hi < |m.flags| && forall p :: lo <= p <= hi ==> m.flags[p].executable == exec
  }

  /** The loop of `check_permission` from page `lo` on: the first page whose W^X bit differs
      from `exec` is reported. */
  function CheckPermission(m: Mem, lo: u64, hi: nat, exec: bool): (r: Status)
    requires hi < 0x10_0000_0000_0000
    ensures r.Pass? <==> PagesAre(m, lo, hi, exec)
    decreases hi + 1 - lo
  {
    if lo > hi then Pass
    else if lo >= |m.flags| then Fail(MemOutOfBound(Wrap(4096 * lo), Memory))
    else if m.flags[lo].executable != exec then Fail(MemWriteOnExecutablePage(lo))
    else CheckPermission(m, lo + 1, hi, exec)
  }

  // ---- The unguarded memory ----

  function FetchFlag(m: Mem, page: u64): Result<PageFlags> {
    if page < |m.flags| then Ok(m.flags[page]) else Err(MemOutOfBound(Wrap(4096 * page), Memory))
  }

  function SetFlag(m: Mem, page: u64, flag: PageFlags): (Mem, Status) {
    if page < |m.flags| then (m.(flags := m.flags[page := m.flags[page].Or(flag)]), Pass)
    else (m, Fail(MemOutOfBound(Wrap(4096 * page), Memory)))
  }

  function ClearFlag(m: Mem, page: u64, flag: PageFlags): (Mem, Status) {
    if page < |m.flags| then (m.(flags := m.flags[page := m.flags[page].Without(flag)]), Pass)
    else (m, Fail(MemOutOfBound(Wrap(4096 * page), Memory)))
  }

  /** Overwrite bytes in range and mark the pages they lie on dirty. */
  function Put(m: Mem, addr: nat, bytes: seq<byte>): (r: Mem)
    requires addr + |bytes| <= |m.data|
    ensures |r.data| == |m.data| && r.lr == m.lr
  {
    MemBase(
      seq(|m.data|, i requires 0 <= i < |m.data| =>
        if addr <= i < addr + |bytes| then bytes[i - addr] else m.data[i]),
      seq(|m.flags|, p requires 0 <= p < |m.flags| =>
        if Touches(addr, |bytes|, p) then m.flags[p].Or(DIRTY) else m.flags[p]),
      m.lr)
  }

  /** `store_bytes` without permission checks; `store_byte` is this on repeated bytes. */
  function RawStore(m: Mem, addr: u64, bytes: seq<byte>): (Mem, Status) {
    if bytes == [] then (m, Pass)
    else match CheckNoOverflow(addr, |bytes|, |m.data|)
         case Fail(e) => (m, Fail(e))
         case Pass => (Put(m, addr, bytes), Pass)
  }

  /** `load8` to `load64`: `n` bytes, little-endian. */
  function Load(m: Mem, addr: u64, n: nat): Result<u64>
    requires n <= 8
  {
    match CheckNoOverflow(addr, n, |m.data|)
    case Fail(e) => Err(e)
    case Pass => Ok(LeWord(m.data[addr..addr + n]))
  }

  function LeWord(s: seq<byte>): u64
    requires |s| <= 8
  {
    FromLe(s)
  }

  function LoadBytes(m: Mem, addr: u64, size: nat): Result<seq<byte>> {
    if size == 0 then Ok([])
    else match CheckNoOverflow(addr, size, |m.data|)
         case Fail(e) => Err(e)
         case Pass => Ok(m.data[addr..addr + size])
  }

  /** `fill_page_data`: zero padding, the part of the source that fits, zeros. */
  function FillPageData(m: Mem, addr: u64, size: nat, source: Option<seq<byte>>, offset: nat): (Mem, Status)
    requires addr + size < 0x1_0000_0000_0000_0000
  {
    var pad := Min(size, offset);
    var (m', s) := RawStore(m, addr, Repeat(pad, 0));
    if s.Fail? then (m', s) else FillFromSource(m', addr, size, source, pad)
  }

  function FillFromSource(m: Mem, addr: u64, size: nat, source: Option<seq<byte>>, written: nat): (Mem, Status)
    requires addr + size < 0x1_0000_0000_0000_0000 && written <= size
  {
    var piece := if source.Some? then source.value[..Min(size - written, |source.value|)] else [];
    var (m', s) := RawStore(m, addr + written, piece);
    if s.Fail? then (m', s) else FillTail(m', addr, size, written + |piece|)
  }

  function FillTail(m: Mem, addr: u64, size: nat, written: nat): (Mem, Status)
    requires addr + size < 0x1_0000_0000_0000_0000 && written <= size
  {
    RawStore(m, addr + written, Repeat(size - written, 0))
  }

  // ---- The write-xor-execute layer ----

  function Store(m: Mem, addr: u64, bytes: seq<byte>): (Mem, Status) {
    if bytes == [] then (m, Pass)
    else match CheckNoOverflow(addr, |bytes|, |m.data|)
         case Fail(e) => (m, Fail(e))
         case Pass =>
           match CheckPermission(m, addr / 4096, (addr + |bytes| - 1) / 4096, false)
           case Fail(e) => (m, Fail(e))
           case Pass => (Put(m, addr, bytes), Pass)
  }

  function StoreWord(m: Mem, addr: u64, value: u64, n: nat): (Mem, Status) {
    Store(m, addr, ToLe(value, n))
  }

  function ExecuteLoad(m: Mem, addr: u64, n: nat): Result<u64>
    requires 0 < n <= 8
  {
    match CheckNoOverflow(addr, n, |m.data|)
    case Fail(e) => Err(e)
    case Pass =>
      match CheckPermission(m, addr / 4096, (addr + n - 1) / 4096, true)
      case Fail(e) => Err(e)
      case Pass => Ok(LeWord(m.data[addr..addr + n]))
  }

  /** The first freezed page from `page` on, or `end`. */
  function FirstFreezed(flags: seq<PageFlags>, page: nat, end: nat): (stop: nat)
    requires page <= end <= |flags|
    ensures page <= stop <= end
    ensures forall p :: page <= p < stop ==> !flags[p].freezed
    ensures stop < end ==> flags[stop].freezed
    decreases end - page
  {
    if page == end || flags[page].freezed then page else FirstFreezed(flags, page + 1, end)
  }

  /** `flags` added to the pages from `page` up to `stop`. */
  function AddFlags(m: Mem, page: nat, stop: nat, flags: PageFlags): Mem {
    m.(flags := seq(|m.flags|, p requires 0 <= p < |m.flags| =>
      if page <= p < stop then m.flags[p].Or(flags) else m.flags[p]))
  }

  /** The page loop of `init_pages`: a freezed page stops it, with the earlier pages already flagged. */
  function FlagPages(m: Mem, page: nat, end: nat, flags: PageFlags): (Mem, Status)
    requires page <= end <= |m.flags|
  {
    var stop := FirstFreezed(m.flags, page, end);
    (AddFlags(m, page, stop, flags), if stop < end then Fail(MemWriteOnFreezedPage(stop)) else Pass)
  }

  /** The argument checks of `init_pages`. */
  function CheckInit(m: Mem, addr: u64, size: u64, offset: u64): (r: Status)
    ensures r.Pass? <==> addr % 4096 == 0 && size % 4096 == 0 && addr + size <= |m.data| && offset <= size
  {
    if RoundDown(addr) != addr then Fail(MemPageUnalignedAccess(addr))
    else if RoundUp(size) != size then Fail(MemPageUnalignedAccess(Wrap(addr + size)))
    else if addr > |m.data| then Fail(MemOutOfBound(addr, Memory))
    else if size > |m.data| || addr + size > |m.data| then Fail(MemOutOfBound(Wrap(addr + size), Memory))
    else if offset > size then Fail(MemOutOfBound(offset, ExternalData))
    else Pass
  }

  function InitPages(m: Mem, addr: u64, size: u64, flags: PageFlags, source: Option<seq<byte>>, offset: u64): (Mem,
                     Status) {
    match CheckInit(m, addr, size, offset)
    case Fail(e) => (m, Fail(e))
    case Pass =>
      match FlagPages(m, addr / 4096, addr / 4096 + size / 4096, flags)
      case (flagged, Fail(e)) => (flagged, Fail(e))
      case (flagged, Pass) => FillPageData(flagged, addr, size, source, offset)
  }
}
