/** Fetching and decoding one instruction, and the direct-mapped cache in front of it. */
module Decode {
  import opened Words
  import opened Outcomes
  import opened Pages
  import opened CodeFreeze
  import opened Instructions
  import Traffic

  /** The decoder's fixed part: an instruction factory is any function of bits and version. */
  datatype Isa = Isa(factories: seq<(nat, nat) -> Option<Inst>>, version: nat)

  // ---- Fetch ----

  /** `decode_bits`: one 32-bit load away from the end of a page, two 16-bit loads at its end. */
  function FetchBits(m: Mem, pc: u64): Result<nat> {
    if pc % 4096 < 4094 then
      match ExecuteLoad(m, pc, 4)
      case Err(e) => Err(e)
      case Ok(bits) => Ok(if bits % 4 != 3 then bits % 0x1_0000 else bits)
    else FetchHalves(m, pc)
  }

  /** Read 16 bits, and 16 more if the low two bits are 11: the encoding's own rule. */
  function FetchHalves(m: Mem, pc: u64): Result<nat> {
    match ExecuteLoad(m, pc, 2)
    case Err(e) => Err(e)
    case Ok(low) =>
      if low % 4 != 3 then Ok(low) else
      match ExecuteLoad(m, Plus(pc, 2), 2)
      case Err(e) => Err(e)
      case Ok(high) => Ok(low + 0x1_0000 * high)
  }

  lemma FourBytes(s: seq<byte>)
    requires |s| == 4
    ensures FromLe(s) == FromLe(s[..2]) + 0x1_0000 * FromLe(s[2..])
    ensures FromLe(s[..2]) < 0x1_0000
  {
    assert s[1..][1..] == s[2..];
    assert s[..2][1..] == [s[1]];
    assert FromLe([s[1]]) == s[1];
  }

  /** Within one page both loads pass or fail together, with the same error. */
  lemma LoadOnPage(m: Mem, pc: u64, at: u64, n: nat)
    requires pc / 4096 == at / 4096 == (at + n - 1) / 4096 && 0 < n <= 8
    ensures ExecuteLoad(m, at, n) ==
            if pc >= |m.data| then Err(MemOutOfBound(at, Memory))
            else if !m.flags[pc / 4096].executable then Err(MemWriteOnExecutablePage(pc / 4096))
            else Ok(LeWord(m.data[at..at + n]))
  {
    hide LeWord;
    if pc < |m.data| {
      assert at + n <= 4096 * (pc / 4096 + 1) <= |m.data|;
    } else {
      assert at >= 4096 * (pc / 4096) >= |m.data|;
    }
  }

  lemma WordFromHalves(m: Mem, pc: nat)
    requires pc + 4 <= |m.data|
    ensures LeWord(m.data[pc..pc + 4]) == LeWord(m.data[pc..pc + 2]) + 0x1_0000 * LeWord(m.data[pc + 2..pc + 4])
    ensures LeWord(m.data[pc..pc + 2]) < 0x1_0000
  {
    var s := m.data[pc..pc + 4];
    FourBytes(s);
    assert s[..2] == m.data[pc..pc + 2] && s[2..] == m.data[pc + 2..pc + 4];
  }

  lemma LowHalf(low: nat, high: nat)
    requires low < 0x1_0000
    ensures (low + 0x1_0000 * high) % 0x1_0000 == low && (low + 0x1_0000 * high) % 4 == low % 4
  {
  }

  /** The fast path reads what the rule reads, and fails as the rule fails, at every even address. */
  lemma FetchFollowsRule(m: Mem, pc: u64)
    requires pc % 2 == 0
    ensures FetchBits(m, pc) == FetchHalves(m, pc)
  {
    hide ExecuteLoad, LeWord, FromLe;
    if pc % 4096 < 4094 {
      assert Plus(pc, 2) == pc + 2;
      LoadOnPage(m, pc, pc, 4);
      LoadOnPage(m, pc, pc, 2);
      LoadOnPage(m, pc, pc + 2, 2);
      if pc < |m.data| {
        WordFromHalves(m, pc);
        LowHalf(LeWord(m.data[pc..pc + 2]), LeWord(m.data[pc + 2..pc + 4]));
      }
    }
  }

  // ---- Decode ----

  /** The first factory from `k` on that knows the bits. */
  function FirstMatch(isa: Isa, k: nat, bits: nat): Option<Inst>
    requires k <= |isa.factories|
    decreases |isa.factories| - k
  {
    if k == |isa.factories| then None
    else
      var i := isa.factories[k](bits, isa.version);
      if i.Some? then i else FirstMatch(isa, k + 1, bits)
  }

  /** Factory `k` is the first to know the bits, asked with the decoder's version. */
  ghost predicate FirstToKnow(isa: Isa, bits: nat, k: nat) {
    && k < |isa.factories| && isa.factories[k](bits, isa.version).Some?
    && forall j :: 0 <= j < k ==> isa.factories[j](bits, isa.version).None?
  }

  lemma {:induction false} FirstMatchFrom(isa: Isa, from: nat, k: nat, bits: nat)
    requires from <= k && FirstToKnow(isa, bits, k)
    ensures FirstMatch(isa, from, bits) == isa.factories[k](bits, isa.version)
    decreases k - from
  {
    if from < k {
      FirstMatchFrom(isa, from + 1, k, bits);
    }
  }

  lemma {:induction false} NoMatchFrom(isa: Isa, from: nat, bits: nat)
    requires from <= |isa.factories|
    requires forall j :: from <= j < |isa.factories| ==> isa.factories[j](bits, isa.version).None?
    ensures FirstMatch(isa, from, bits).None?
    decreases |isa.factories| - from
  {
    if from < |isa.factories| {
      NoMatchFrom(isa, from + 1, bits);
    }
  }

  /** `decode_raw` as it is without a cache. */
  function DecodeRaw(isa: Isa, m: Mem, pc: u64): Result<Inst> {
    if pc >= |m.data| then Err(MemOutOfBound(pc, Memory))
    else
      match FetchBits(m, pc)
      case Err(e) => Err(e)
      case Ok(bits) =>
        match FirstMatch(isa, 0, bits)
        case Some(i) => Ok(i)
        case None => Err(InvalidInstruction(pc, bits))
  }

  /** An address in memory decodes to what the first factory that knows its bits makes of them, and to
      an error with the bits if none does. */
  lemma DecodeRawExact(isa: Isa, m: Mem, pc: u64)
    ensures pc >= |m.data| ==> DecodeRaw(isa, m, pc) == Err(MemOutOfBound(pc, Memory))
    ensures pc < |m.data| && FetchBits(m, pc).Err? ==> DecodeRaw(isa, m, pc) == Err(FetchBits(m, pc).error)
    ensures pc < |m.data| && FetchBits(m, pc).Ok? ==>
            var bits := FetchBits(m, pc).value;
            && (forall k: nat :: FirstToKnow(isa, bits, k) ==>
                  DecodeRaw(isa, m, pc) == Ok(isa.factories[k](bits, isa.version).value))
            && ((forall k: nat :: !FirstToKnow(isa, bits, k)) ==>
                  DecodeRaw(isa, m, pc) == Err(InvalidInstruction(pc, bits)))
  {
    hide FetchBits, FirstMatch;
    if FetchBits(m, pc).Err? {
      return;
    }
    var bits := FetchBits(m, pc).value;
    forall k: nat | FirstToKnow(isa, bits, k)
      ensures FirstMatch(isa, 0, bits) == isa.factories[k](bits, isa.version)
    {
      FirstMatchFrom(isa, 0, k, bits);
    }
    if forall k: nat :: !FirstToKnow(isa, bits, k) {
      NobodyKnows(isa, bits, |isa.factories|);
      NoMatchFrom(isa, 0, bits);
    }
  }

  lemma {:induction false} NobodyKnows(isa: Isa, bits: nat, n: nat)
    requires n <= |isa.factories| && forall k: nat :: !FirstToKnow(isa, bits, k)
    ensures forall j :: 0 <= j < n ==> isa.factories[j](bits, isa.version).None?
  {
    if n > 0 {
      NobodyKnows(isa, bits, n - 1);
      assert !FirstToKnow(isa, bits, n - 1);
    }
  }

  // ---- The instruction cache ----

  datatype Entry = Entry(key: u64, inst: Inst)

  const FILLER := Entry(0xFFFF_FFFF_FFFF_FFFF, RType(INVALID(0), 0, 0, 0, 0))

  /** `((pc & 0xFF) | (pc >> 12 << 8)) % 4096` of the halved address: the two parts share no bit. */
  function Slot(pc: u64): nat {
    var half := pc / 2;
    (half % 0x100 + half / 0x1000 * 0x100) % 4096
  }

  /** Two instructions share a slot exactly when bits 1 to 8 and bits 13 to 16 of their addresses agree:
      bits 9 to 12 do not count, so code 512 bytes on already competes. */
  lemma SlotsShared(a: u64, b: u64)
    ensures Slot(a) == Slot(b) <==> a / 2 % 0x100 == b / 2 % 0x100 && a / 0x2000 % 0x10 == b / 0x2000 % 0x10
  {
    SlotParts(a);
    SlotParts(b);
  }

  lemma SlotParts(a: u64)
    ensures Slot(a) == a / 2 % 0x100 + 0x100 * (a / 0x2000 % 0x10)
  {
    var x, y := a / 2 % 0x100, a / 2 / 0x1000;
    assert y == a / 0x2000;
    var q, r := y / 0x10, y % 0x10;
    assert x + y * 0x100 == 4096 * q + (x + 0x100 * r);
  }

  type Cache = c: seq<Entry> | |c| == 4096 witness seq(4096, _ => FILLER)

  function EmptyCache(): Cache {
    seq(4096, _ => FILLER)
  }

  /** `decode_raw`: the answer, and the cache it leaves behind. */
  function DecodeCached(isa: Isa, cache: Cache, m: Mem, pc: u64): (Result<Inst>, Cache) {
    if pc >= |m.data| then (Err(MemOutOfBound(pc, Memory)), cache)
    else if cache[Slot(pc)].key == pc then (Ok(cache[Slot(pc)].inst), cache)
    else
      match DecodeRaw(isa, m, pc)
      case Err(e) => (Err(e), cache)
      case Ok(i) => (Ok(i), cache[Slot(pc) := Entry(pc, i)])
  }

  /** A decoded instruction stays in its slot, so that the same address hits next time; a failure leaves
      the cache alone, and no other slot ever changes. */
  lemma CacheFills(isa: Isa, cache: Cache, m: Mem, pc: u64)
    ensures var (r, after) := DecodeCached(isa, cache, m, pc);
            && (r.Ok? ==> after[Slot(pc)] == Entry(pc, r.value) && DecodeCached(isa, after, m, pc) == (r, after))
            && (r.Err? ==> after == cache)
            && forall k :: 0 <= k < 4096 && k != Slot(pc) ==> after[k] == cache[k]
  {
    hide DecodeRaw;
  }

  /** Every filled slot holds what decoding its key would give now. */
  ghost predicate Trusted(isa: Isa, cache: Cache, m: Mem) {
    forall k :: 0 <= k < 4096 ==>
      cache[k].key == FILLER.key || DecodeRaw(isa, m, cache[k].key) == Ok(cache[k].inst)
  }

  lemma CachedAnswer(isa: Isa, cache: Cache, m: Mem, pc: u64)
    requires Trusted(isa, cache, m)
    ensures DecodeCached(isa, cache, m, pc).0 == DecodeRaw(isa, m, pc)
    ensures Trusted(isa, DecodeCached(isa, cache, m, pc).1, m)
  {
  }

  // ---- What decoding depends on ----

  lemma ExecuteLoadKept(m: Mem, m': Mem, addr: u64, n: nat)
    requires CodeKept(m, m') && 0 < n <= 8 && ExecuteLoad(m, addr, n).Ok?
    ensures ExecuteLoad(m', addr, n) == ExecuteLoad(m, addr, n)
  {
    var lo, hi := addr / 4096, (addr + n - 1) / 4096;
    assert PagesAre(m, lo, hi, true);
    assert PagesAre(m', lo, hi, true);
    forall k | addr <= k < addr + n
      ensures m'.data[k] == m.data[k]
    {
      PageOfByte(addr, n, k);
    }
    assert m'.data[addr..addr + n] == m.data[addr..addr + n];
  }

  /** An instruction that could be decoded decodes the same after anything that keeps the code. */
  lemma DecodeKept(isa: Isa, m: Mem, m': Mem, pc: u64)
    requires CodeKept(m, m') && DecodeRaw(isa, m, pc).Ok?
    ensures DecodeRaw(isa, m', pc) == DecodeRaw(isa, m, pc)
  {
    if pc % 4096 < 4094 {
      ExecuteLoadKept(m, m', pc, 4);
    } else {
      ExecuteLoadKept(m, m', pc, 2);
      if ExecuteLoad(m, pc, 2).value % 4 == 3 {
        ExecuteLoadKept(m, m', Plus(pc, 2), 2);
      }
    }
  }

  lemma TrustKept(isa: Isa, cache: Cache, m: Mem, m': Mem)
    requires Trusted(isa, cache, m) && CodeKept(m, m')
    ensures Trusted(isa, cache, m')
  {
    forall k | 0 <= k < 4096 && cache[k].key != FILLER.key
      ensures DecodeRaw(isa, m', cache[k].key) == Ok(cache[k].inst)
    {
      DecodeKept(isa, m, m', cache[k].key);
    }
  }

  /** Neither memory shows code that the other does not. */
  ghost predicate SameCode(m: Mem, m': Mem) {
    CodeKept(m, m') && CodeKept(m', m)
  }

  lemma {:induction false} SamePermission(m: Mem, m': Mem, lo: u64, hi: nat)
    requires SameCode(m, m') && hi < 0x10_0000_0000_0000
    ensures CheckPermission(m, lo, hi, true) == CheckPermission(m', lo, hi, true)
    decreases hi + 1 - lo
  {
    if lo <= hi && lo < |m.flags| {
      SamePermission(m, m', lo + 1, hi);
    }
  }

  lemma SameExecuteLoad(m: Mem, m': Mem, addr: u64, n: nat)
    requires SameCode(m, m') && 0 < n <= 8
    ensures ExecuteLoad(m, addr, n) == ExecuteLoad(m', addr, n)
  {
    if addr + n <= |m.data| {
      SamePermission(m, m', addr / 4096, (addr + n - 1) / 4096);
      if ExecuteLoad(m, addr, n).Ok? {
        ExecuteLoadKept(m, m', addr, n);
      }
    }
  }

  /** Decoding sees only the code: same code, same instruction or same error. */
  lemma SameDecode(isa: Isa, m: Mem, m': Mem, pc: u64)
    requires SameCode(m, m')
    ensures DecodeRaw(isa, m, pc) == DecodeRaw(isa, m', pc)
  {
    hide ExecuteLoad, FirstMatch;
    SameExecuteLoad(m, m', pc, 4);
    SameExecuteLoad(m, m', pc, 2);
    SameExecuteLoad(m, m', Plus(pc, 2), 2);
  }

  // ---- Any history ----

  /** What can happen to a decoder and its memory: a fetch, a call on the memory, or a reset. */
  datatype Event = Fetch(pc: u64) | Access(call: Traffic.Call) | Reset

  ghost predicate LawfulEvents(events: seq<Event>) {
    forall k :: 0 <= k < |events| && events[k].Access? ==> Lawful(events[k].call)
  }

  /** The answers of a decoder that never caches. */
  function Uncached(isa: Isa, m: Mem, events: seq<Event>): seq<Result<Inst>>
    requires LawfulEvents(events)
    decreases |events|
  {
    if events == [] then []
    else match events[0]
         case Fetch(pc) => [DecodeRaw(isa, m, pc)] + Uncached(isa, m, events[1..])
         case Access(c) => Uncached(isa, Traffic.Respond(m, c).0, events[1..])
         case Reset => Uncached(isa, m, events[1..])
  }

  /** The answers of the decoder with its cache. */
  function Cached(isa: Isa, cache: Cache, m: Mem, events: seq<Event>): seq<Result<Inst>>
    requires LawfulEvents(events)
    decreases |events|
  {
    if events == [] then []
    else match events[0]
         case Fetch(pc) =>
           [DecodeCached(isa, cache, m, pc).0] + Cached(isa, DecodeCached(isa, cache, m, pc).1, m, events[1..])
         case Access(c) => Cached(isa, cache, Traffic.Respond(m, c).0, events[1..])
         case Reset => Cached(isa, EmptyCache(), m, events[1..])
  }

  /** Over any interleaving of fetches, memory calls and resets the cache cannot be noticed,
      whatever slots collide. */
  lemma {:induction false} CacheIsInvisible(isa: Isa, cache: Cache, m: Mem, events: seq<Event>)
    requires LawfulEvents(events) && ExecutableIsFreezed(m) && Trusted(isa, cache, m)
    ensures Cached(isa, cache, m, events) == Uncached(isa, m, events)
    decreases |events|
  {
    hide DecodeRaw, DecodeCached, ExecutableIsFreezed, CodeKept, Traffic.Respond, EmptyCache;
    if events != [] {
      var rest := events[1..];
      if events[0].Fetch? {
        CachedAnswer(isa, cache, m, events[0].pc);
        CacheIsInvisible(isa, DecodeCached(isa, cache, m, events[0].pc).1, m, rest);
      } else if events[0].Access? {
        var m' := Traffic.Respond(m, events[0].call).0;
        CallKeepsCode(m, events[0].call);
        TrustKept(isa, cache, m, m');
        CacheIsInvisible(isa, cache, m', rest);
      } else {
        EmptyIsTrusted(isa, m);
        CacheIsInvisible(isa, EmptyCache(), m, rest);
      }
    }
  }

  /** An empty cache vouches for nothing, and its filler key is an address that no fetch gets to
      look up: it lies beyond every memory. */
  lemma EmptyIsTrusted(isa: Isa, m: Mem)
    ensures Trusted(isa, EmptyCache(), m)
    ensures forall pc: u64 :: DecodeCached(isa, EmptyCache(), m, pc).0 == DecodeRaw(isa, m, pc)
  {
    forall pc: u64
      ensures DecodeCached(isa, EmptyCache(), m, pc).0 == DecodeRaw(isa, m, pc)
    {
      CachedAnswer(isa, EmptyCache(), m, pc);
    }
  }
}
