/** `FlatMemory`: one buffer for all bytes, one for all flags, written in place. */
module Flat {
  import opened Words
  import opened Outcomes
  import opened Pages

  class FlatMemory {
    const data: array<byte>
    const flags: array<PageFlags>
    const memorySize: nat
    var lr: u64

    ghost predicate Valid() {
      data.Length == memorySize == 4096 * flags.Length && memorySize < 0x8000_0000_0000_0000
    }

    ghost function Contents(): Mem
      reads this, data, flags
      requires Valid()
    {
      MemBase(data[..], flags[..], lr)
    }

    constructor (memorySize: nat)
      requires memorySize % 4096 == 0 && memorySize < 0x8000_0000_0000_0000
      ensures Valid() && this.memorySize == memorySize && fresh(data) && fresh(flags)
      ensures Contents() == MemBase(Repeat(memorySize, 0), seq(memorySize / 4096, _ => NONE), 0xFFFF_FFFF_FFFF_FFFF)
    {
      this.data := new byte[memorySize](_ => 0);
      this.flags := new PageFlags[memorySize / 4096](_ => NONE);
      this.memorySize := memorySize;
      this.lr := 0xFFFF_FFFF_FFFF_FFFF;
      new;
      assert data[..] == Repeat(memorySize, 0);
      assert flags[..] == seq(memorySize / 4096, _ => NONE);
    }

    method SetDirty(first: nat, last: nat)
      requires Valid() && first <= last < flags.Length
      modifies flags
      ensures forall p :: 0 <= p < flags.Length ==>
                flags[p] == if first <= p <= last then old(flags[p]).Or(DIRTY) else old(flags[p])
    {
      for page := first to last + 1
        invariant forall p :: 0 <= p < flags.Length ==>
                    flags[p] == if first <= p < page then old(flags[p]).Or(DIRTY) else old(flags[p])
      {
        flags[page] := flags[page].Or(DIRTY);
      }
    }

    method StoreBytes(addr: u64, value: seq<byte>) returns (s: Status)
      requires Valid()
      modifies data, flags
      ensures (Contents(), s) == RawStore(old(Contents()), addr, value)
    {
      if value == [] {
        return Pass;
      }
      s := CheckNoOverflow(addr, |value|, memorySize);
      if s.Pass? {
        SetDirty(addr / 4096, (addr + |value| - 1) / 4096);
        forall i | 0 <= i < |value| {
          data[addr + i] := value[i];
        }
        ghost var after := Put(old(Contents()), addr, value);
        assert data[..] == after.data;
        assert flags[..] == after.flags;
      }
    }

    method StoreByte(addr: u64, size: nat, value: byte) returns (s: Status)
      requires Valid()
      modifies data, flags
      ensures (Contents(), s) == RawStore(old(Contents()), addr, Repeat(size, value))
    {
      if size == 0 {
        return Pass;
      }
      s := CheckNoOverflow(addr, size, memorySize);
      if s.Pass? {
        SetDirty(addr / 4096, (addr + size - 1) / 4096);
        forall i | addr <= i < addr + size {
          data[i] := value;
        }
        ghost var after := Put(old(Contents()), addr, Repeat(size, value));
        assert data[..] == after.data;
        assert flags[..] == after.flags;
      }
    }

    method Load(addr: u64, n: nat) returns (r: Result<u64>)
      requires Valid() && n <= 8
      ensures r == Pages.Load(Contents(), addr, n)
    {
      var s := CheckNoOverflow(addr, n, memorySize);
      if s.Fail? {
        return Err(s.error);
      }
      return Ok(LeWord(data[addr..addr + n]));
    }

    method LoadBytes(addr: u64, size: nat) returns (r: Result<seq<byte>>)
      requires Valid()
      ensures r == Pages.LoadBytes(Contents(), addr, size)
    {
      if size == 0 {
        return Ok([]);
      }
      var s := CheckNoOverflow(addr, size, memorySize);
      if s.Fail? {
        return Err(s.error);
      }
      return Ok(data[addr..addr + size]);
    }

    method FetchFlag(page: u64) returns (r: Result<PageFlags>)
      requires Valid()
      ensures r == Pages.FetchFlag(Contents(), page)
    {
      if page < flags.Length {
        return Ok(flags[page]);
      }
      return Err(MemOutOfBound(Wrap(4096 * page), Memory));
    }

    method SetFlag(page: u64, flag: PageFlags) returns (s: Status)
      requires Valid()
      modifies flags
      ensures (Contents(), s) == Pages.SetFlag(old(Contents()), page, flag)
    {
      if page < flags.Length {
        flags[page] := flags[page].Or(flag);
        return Pass;
      }
      return Fail(MemOutOfBound(Wrap(4096 * page), Memory));
    }

    method ClearFlag(page: u64, flag: PageFlags) returns (s: Status)
      requires Valid()
      modifies flags
      ensures (Contents(), s) == Pages.ClearFlag(old(Contents()), page, flag)
    {
      if page < flags.Length {
        flags[page] := flags[page].Without(flag);
        return Pass;
      }
      return Fail(MemOutOfBound(Wrap(4096 * page), Memory));
    }

    method SetLr(value: u64)
      requires Valid()
      modifies this`lr
      ensures Contents() == old(Contents()).(lr := value)
    {
      lr := value;
    }
  }
}
