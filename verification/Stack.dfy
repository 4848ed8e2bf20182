/** The program's arguments: laid out on the stack by `initialize_stack`, read back by
    `FlattenedArgsReader`. 64-bit registers, VERSION1 and later. */
module Stack {
  import opened Words
  import opened Outcomes
  import opened Pages
  import opened CodeFreeze
  import opened Instructions
  import opened Arith
  import M = Machine

  /** `& !15` */
  function Align16(x: u64): (r: u64)
    ensures r % 16 == 0 && r <= x < r + 16
  {
    x - x % 16
  }

  // ---- What the layout means ----

  /** A NUL-terminated string. */
  ghost predicate StringAt(m: Mem, at: nat, s: seq<byte>) {
    at + |s| < |m.data| && m.data[at..at + |s|] == s && m.data[at + |s|] == 0
  }

  ghost predicate WordAt(m: Mem, at: nat, v: u64) {
    at + 8 <= |m.data| && m.data[at..at + 8] == ToLe(v, 8)
  }

  /** `pointers` are where the strings are, all of them from `low` on and below `top`. */
  ghost predicate Strings(m: Mem, args: seq<seq<byte>>, pointers: seq<u64>, low: nat, top: nat) {
    && |pointers| == |args|
    && forall k :: 0 <= k < |args| ==>
         low <= pointers[k] && pointers[k] + |args[k]| < top && StringAt(m, pointers[k], args[k])
  }

  /** argc at `sp`, then the pointers, then a null pointer, and above them the strings. */
  ghost predicate ArgsAt(m: Mem, sp: nat, args: seq<seq<byte>>, pointers: seq<u64>, top: nat) {
    && |args| < 0x1_0000_0000_0000_0000
    && WordAt(m, sp, |args|)
    && Strings(m, args, pointers, sp + 8 * (|args| + 2), top)
    && (forall k :: 0 <= k < |args| ==> WordAt(m, sp + 8 + 8 * k, pointers[k]))
    && WordAt(m, sp + 8 + 8 * |args|, 0)
  }

  /** Outside `[low, high)` nothing changed. */
  ghost predicate OnlyBetween(m: Mem, m': Mem, low: nat, high: nat) {
    |m'.data| == |m.data| && forall i :: 0 <= i < |m.data| && !(low <= i < high) ==> m'.data[i] == m.data[i]
  }

  lemma Written(m: Mem, addr: u64, bytes: seq<byte>)
    requires Store(m, addr, bytes).1.Pass? && bytes != []
    ensures var m' := Store(m, addr, bytes).0;
            && addr + |bytes| <= |m.data| && m'.data[addr..addr + |bytes|] == bytes
            && OnlyBetween(m, m', addr, addr + |bytes|)
  {
  }

  lemma StringKept(m: Mem, m': Mem, low: nat, high: nat, at: nat, s: seq<byte>)
    requires OnlyBetween(m, m', low, high) && high <= at && StringAt(m, at, s)
    ensures StringAt(m', at, s)
  {
    assert m'.data[at..at + |s|] == m.data[at..at + |s|];
  }

  lemma WordKept(m: Mem, m': Mem, low: nat, high: nat, at: nat, v: u64)
    requires OnlyBetween(m, m', low, high) && high <= at && WordAt(m, at, v)
    ensures WordAt(m', at, v)
  {
    assert m'.data[at..at + 8] == m.data[at..at + 8];
  }

  lemma StringsKept(m: Mem, m': Mem, args: seq<seq<byte>>, pointers: seq<u64>, from: nat, low: nat, high: nat, top: nat)
    requires OnlyBetween(m, m', low, high) && high <= from && Strings(m, args, pointers, from, top)
    ensures Strings(m', args, pointers, from, top)
  {
    hide StringAt, OnlyBetween;
    forall k | 0 <= k < |args|
      ensures StringAt(m', pointers[k], args[k])
    {
      StringKept(m, m', low, high, pointers[k], args[k]);
    }
  }

  /** Storing an argument and its terminator below `sp`: it cannot have wrapped, since both stores
      were in bounds. */
  lemma ArgStored(m: Mem, sp: u64, arg: seq<byte>)
    requires Store(m, Minus(sp, |arg| + 1), arg).1.Pass?
    requires var m1 := Store(m, Minus(sp, |arg| + 1), arg).0;
             Store(m1, Plus(Minus(sp, |arg| + 1), |arg|), [0]).1.Pass?
    ensures var at := Minus(sp, |arg| + 1);
            var m2 := Store(Store(m, at, arg).0, Plus(at, |arg|), [0]).0;
            at == sp - |arg| - 1 && sp <= |m.data| && OnlyBetween(m, m2, at, sp) && StringAt(m2, at, arg)
  {
    hide Store;
    var at := Minus(sp, |arg| + 1);
    var m1 := Store(m, at, arg).0;
    if arg != [] {
      Written(m, at, arg);
    } else {
      StoreNothing(m, at);
    }
    Written(m1, Plus(at, |arg|), [0]);
    var m2 := Store(m1, Plus(at, |arg|), [0]).0;
    NoWrapBelow(sp, |arg|, |m.data|, at);
    assert m2.data[at + |arg|] == 0;
    assert m2.data[at..at + |arg|] == m1.data[at..at + |arg|];
  }

  lemma StoreNothing(m: Mem, at: u64)
    ensures Store(m, at, []) == (m, Pass)
  {
  }

  lemma NoWrapBelow(sp: u64, n: nat, size: nat, at: u64)
    requires at == Minus(sp, n + 1) && size < 0x8000_0000_0000_0000
    requires n > 0 ==> at + n <= size
    requires Plus(at, n) + 1 <= size
    ensures at == sp - n - 1 && sp <= size && Plus(at, n) == at + n
  {
  }

  /** Pushing a word. */
  lemma WordPushed(m: Mem, sp: u64, v: u64)
    requires StoreWord(m, Minus(sp, 8), v, 8).1.Pass?
    ensures Minus(sp, 8) == sp - 8
    ensures var m' := StoreWord(m, Minus(sp, 8), v, 8).0; OnlyBetween(m, m', sp - 8, sp) && WordAt(m', sp - 8, v)
  {
    Written(m, Minus(sp, 8), ToLe(v, 8));
  }

  lemma MinusTwice(sp: u64, a: nat, b: nat)
    ensures Minus(Minus(sp, a), b) == Minus(Minus(sp, b), a)
  {
    WrapMinus(sp - a, b);
    WrapMinus(sp - b, a);
  }

  lemma WrapMinus(x: int, b: nat)
    ensures Wrap(Wrap(x) - b) == Wrap(x - b)
  {
    var q := x / 0x1_0000_0000_0000_0000;
    assert x - b == 0x1_0000_0000_0000_0000 * q + (Wrap(x) - b);
    WrapShift(Wrap(x) - b, q);
  }

  lemma AlignmentGap(sp: u64, n: nat)
    ensures var unaligned := Minus(sp, n);
            Minus(Minus(sp, unaligned - Align16(unaligned)), n) == Align16(unaligned)
  {
    hide Align16;
    var unaligned := Minus(sp, n);
    MinusTwice(sp, unaligned - Align16(unaligned), n);
  }

  // ---- When the layout fits ----

  /** Every byte of `[lo, hi)` is in memory, on a page that is not executable. */
  ghost predicate Writable(m: Mem, lo: int, hi: int) {
    0 <= lo && hi <= |m.data| && forall i :: lo <= i < hi ==> !m.flags[i / 4096].executable
  }

  lemma StorePasses(m: Mem, at: u64, bytes: seq<byte>)
    requires bytes != []
    ensures Store(m, at, bytes).1.Pass? <==> Writable(m, at, at + |bytes|)
  {
    var first, last := at / 4096, (at + |bytes| - 1) / 4096;
    if at + |bytes| <= |m.data| {
      if Writable(m, at, at + |bytes|) {
        forall p | first <= p <= last
          ensures !m.flags[p].executable
        {
          var i := if p == first then at else 4096 * p;
          assert i / 4096 == p && at <= i < at + |bytes|;
        }
        assert PagesAre(m, first, last, false);
      } else {
        var i :| at <= i < at + |bytes| && m.flags[i / 4096].executable;
        PageOfByte(at, |bytes|, i);
      }
    }
  }

  /** Writing changes no permission. */
  ghost predicate SamePermissions(m: Mem, m': Mem) {
    |m'.flags| == |m.flags| && forall p :: 0 <= p < |m.flags| ==> m'.flags[p].executable == m.flags[p].executable
  }

  lemma StoreKeepsPermissions(m: Mem, at: u64, bytes: seq<byte>)
    ensures SamePermissions(m, Store(m, at, bytes).0)
  {
  }

  lemma WritableAlike(m: Mem, m': Mem, lo: int, hi: int)
    requires SamePermissions(m, m')
    ensures Writable(m, lo, hi) <==> Writable(m', lo, hi)
  {
  }

  lemma WritablePart(m: Mem, lo: int, hi: int, lo': int, hi': int)
    requires Writable(m, lo, hi) && lo <= lo' && hi' <= hi
    ensures Writable(m, lo', hi')
  {
  }

  lemma WritableJoin(m: Mem, lo: int, mid: int, hi: int)
    requires Writable(m, lo, mid) && Writable(m, mid, hi)
    ensures Writable(m, lo, hi)
  {
  }

  /** The bytes that the strings take, terminators included. */
  function Total(args: seq<Result<seq<byte>>>): nat {
    if args == [] then 0
    else
      var last := args[|args| - 1];
      Total(args[..|args| - 1]) + (if last.Ok? then |last.value| + 1 else 0)
  }

  ghost predicate AllOk(args: seq<Result<seq<byte>>>) {
    forall k :: 0 <= k < |args| ==> args[k].Ok?
  }

  lemma {:induction false} TotalOfPrefix(args: seq<Result<seq<byte>>>, k: nat)
    requires k <= |args|
    ensures Total(args[..k]) <= Total(args)
    decreases |args|
  {
    if k == |args| {
      assert args[..k] == args;
    } else {
      assert args[..|args| - 1][..k] == args[..k];
      TotalOfPrefix(args[..|args| - 1], k);
    }
  }

  ghost predicate StringsFit(m: Mem, args: seq<Result<seq<byte>>>, stackStart: u64, top: u64, version: nat) {
    args == [] || (Writable(m, top - Total(args), top) && (version >= 2 ==> stackStart <= top - Total(args)))
  }

  /** Where strings fit, each store of each of them succeeds. */
  lemma StringStores(m: Mem, now: Mem, args: seq<Result<seq<byte>>>, k: nat, stackStart: u64, top: u64, version: nat)
    requires k < |args| && AllOk(args) && StringsFit(m, args, stackStart, top, version) && SamePermissions(m, now)
    requires Total(args[..k]) <= top
    ensures var arg, sp := args[k].value, top - Total(args[..k]);
            var at := Minus(sp, |arg| + 1);
            var m1 := Store(now, at, arg).0;
            && at == sp - |arg| - 1 && (version >= 2 ==> at >= stackStart)
            && Store(now, at, arg).1.Pass? && Store(m1, Plus(at, |arg|), [0]).1.Pass?
  {
    hide Store, Writable;
    var arg: seq<byte>, sp: int := args[k].value, top - Total(args[..k]);
    NextTotal(args, k);
    TotalOfPrefix(args, k + 1);
    StringRoom(m, args, top);
    var at: u64 := sp - |arg| - 1;
    assert Minus(sp, |arg| + 1) == at && Plus(at, |arg|) == at + |arg|;
    WritablePart(m, top - Total(args), top, at, at + |arg|);
    WritablePart(m, top - Total(args), top, at + |arg|, sp);
    WritableAlike(m, now, at, at + |arg|);
    if arg == [] {
      StoreNothing(now, at);
    } else {
      StorePasses(now, at, arg);
    }
    var m1 := Store(now, at, arg).0;
    StoreKeepsPermissions(now, at, arg);
    WritableAlike(m, now, at + |arg|, sp);
    WritableAlike(now, m1, at + |arg|, sp);
    StorePasses(m1, at + |arg|, [0]);
  }

  lemma StringRoom(m: Mem, args: seq<Result<seq<byte>>>, top: u64)
    requires Writable(m, top - Total(args), top)
    ensures 0 <= top - Total(args)
  {
  }

  lemma NextTotal(args: seq<Result<seq<byte>>>, k: nat)
    requires k < |args| && args[k].Ok?
    ensures Total(args[..k + 1]) == Total(args[..k]) + |args[k].value| + 1
  {
    assert args[..k + 1][..k] == args[..k];
  }

  /** Where both stores of a string succeed, its bytes were writable. */
  lemma StringWasWritable(m: Mem, now: Mem, sp: u64, arg: seq<byte>)
    requires SamePermissions(m, now) && Store(now, Minus(sp, |arg| + 1), arg).1.Pass?
    requires var m1 := Store(now, Minus(sp, |arg| + 1), arg).0;
             Store(m1, Plus(Minus(sp, |arg| + 1), |arg|), [0]).1.Pass?
    ensures Writable(m, sp - |arg| - 1, sp)
    ensures SamePermissions(m, Store(Store(now, Minus(sp, |arg| + 1), arg).0, Plus(Minus(sp, |arg| + 1), |arg|), [0]).0)
  {
    hide Store, Writable;
    ArgStored(now, sp, arg);
    var at := Minus(sp, |arg| + 1);
    var m1 := Store(now, at, arg).0;
    NoWrapAt(sp, |arg|, at);
    StoreKeepsPermissions(now, at, arg);
    StoreKeepsPermissions(m1, at + |arg|, [0]);
    StorePasses(m1, at + |arg|, [0]);
    WritableAlike(now, m1, at + |arg|, sp);
    if arg == [] {
    } else {
      StorePasses(now, at, arg);
      WritableJoin(now, at, at + |arg|, sp);
    }
    WritableAlike(m, now, at, sp);
  }

  lemma NoWrapAt(sp: u64, n: nat, at: u64)
    requires at == sp - n - 1
    ensures Plus(at, n) == at + n
  {
  }

  lemma FitGrows(m: Mem, args: seq<Result<seq<byte>>>, k: nat, stackStart: u64, top: u64, version: nat)
    requires k < |args| && args[k].Ok? && StringsFit(m, args[..k], stackStart, top, version)
    requires Writable(m, top - Total(args[..k]) - |args[k].value| - 1, top - Total(args[..k]))
    requires version >= 2 ==> stackStart <= top - Total(args[..k]) - |args[k].value| - 1
    ensures StringsFit(m, args[..k + 1], stackStart, top, version)
  {
    hide Writable;
    NextTotal(args, k);
    if k == 0 {
      assert args[..0] == [];
    } else {
      WritableJoin(m, top - Total(args[..k + 1]), top - Total(args[..k]), top);
    }
  }

  /** The 16-byte boundary at or below `x`. */
  function Aligned(x: int): int {
    x - x % 16
  }

  /** Where the layout begins: the boundary at or below strings, argc, pointers and null. */
  function LayoutStart(args: seq<Result<seq<byte>>>, top: int): int {
    Aligned(top - Total(args) - 8 * (|args| + 2))
  }

  /** The whole layout is within the stack, and all of it writable. */
  ghost predicate LayoutFits(m: Mem, args: seq<Result<seq<byte>>>, stackStart: u64, top: u64) {
    AllOk(args) && stackStart <= LayoutStart(args, top) && Writable(m, LayoutStart(args, top), top)
  }

  /** Where the layout fits, the strings fit, and so do the values behind the alignment gap. */
  lemma FittingParts(m: Mem, args: seq<Result<seq<byte>>>, stackStart: u64, top: u64, version: nat)
    requires LayoutFits(m, args, stackStart, top)
    ensures StringsFit(m, args, stackStart, top, version) && 0 <= top - Total(args)
    ensures var low: u64, n := top - Total(args), 8 * (|args| + 2);
            var unaligned := Minus(low, n);
            var high := Minus(low, unaligned - Align16(unaligned));
            high - n == LayoutStart(args, top) && Writable(m, high - n, high)
  {
    hide Writable, Minus, Align16;
    var start, n := LayoutStart(args, top), 8 * (|args| + 2);
    Nonnegative(m, start, top);
    var low: u64 := top - Total(args);
    var gap := (low - n) % 16;
    AlignedBelow(low, n, gap);
    WritablePart(m, start, top, low, top);
    WritablePart(m, start, top, start, low - gap);
  }

  lemma AlignedBelow(low: u64, n: nat, gap: nat)
    requires n <= low && gap == (low - n) % 16
    ensures Minus(low, n) == low - n && Minus(low, n) - Align16(Minus(low, n)) == gap && Minus(low, gap) == low - gap
  {
    hide Align16, Minus, Wrap;
    NoBorrow(low, n);
    assert Minus(low, n) - Align16(Minus(low, n)) == gap by {
      Align16Gap(low - n);
    }
    NoBorrow(low, gap);
  }

  lemma NoBorrow(a: u64, b: nat)
    requires b <= a
    ensures Minus(a, b) == a - b
  {
  }

  lemma Align16Gap(x: u64)
    ensures x - Align16(x) == x % 16
  {
  }

  /** Strings and values that were written, with a gap of less than 16 bytes between them, make the
      whole layout writable: no page lies within the gap. */
  lemma WholeLayout(m: Mem, args: seq<Result<seq<byte>>>, stackStart: u64, top: u64, gap: nat)
    requires args != [] && AllOk(args) && Writable(m, top - Total(args), top)
    requires gap == (top - Total(args) - 8 * (|args| + 2)) % 16
    requires Writable(m, LayoutStart(args, top), top - Total(args) - gap)
    requires stackStart <= LayoutStart(args, top)
    ensures LayoutFits(m, args, stackStart, top)
  {
    TotalPositive(args);
    var start, low := LayoutStart(args, top), top - Total(args);
    forall i | low - gap <= i < low
      ensures !m.flags[i / 4096].executable
    {
      assert i / 4096 == (low - gap - 1) / 4096 || i / 4096 == low / 4096;
    }
  }

  lemma TotalPositive(args: seq<Result<seq<byte>>>)
    requires args != [] && AllOk(args)
    ensures Total(args) > 0
  {
  }

  // ---- initialize_stack ----

  function Values(args: seq<Result<seq<byte>>>): seq<seq<byte>>
    requires forall k :: 0 <= k < |args| ==> args[k].Ok?
  {
    seq(|args|, k requires 0 <= k < |args| => args[k].value)
  }

  /** The strings lie end to end below `top`, first one highest. */
  ghost predicate Packed(args: seq<Result<seq<byte>>>, pointers: seq<u64>, top: nat) {
    |pointers| <= |args| && forall j :: 0 <= j < |pointers| ==> pointers[j] == top - Total(args[..j + 1])
  }

  lemma PackedNone(args: seq<Result<seq<byte>>>, top: nat)
    ensures Packed(args, [], top)
  {
  }

  lemma PackedOne(args: seq<Result<seq<byte>>>, pointers: seq<u64>, top: nat, address: u64)
    requires Packed(args, pointers, top) && |pointers| < |args| && address == top - Total(args[..|pointers| + 1])
    ensures Packed(args, pointers + [address], top)
  {
  }

  /** The arguments, last one lowest. */
  method PushStrings(machine: M.DefaultMachine, args: seq<Result<seq<byte>>>, stackStart: u64, top: u64)
    returns (s: Status, pointers: seq<u64>)
    requires machine.registers[SP] == top
    modifies machine`registers, machine`memory
    ensures s.Pass? ==>
              && (forall k :: 0 <= k < |args| ==> args[k].Ok?)
              && Strings(machine.memory, Values(args), pointers, machine.registers[SP], top)
              && machine.registers == old(machine.registers)[SP := machine.registers[SP]]
              && machine.registers[SP] <= top
              && OnlyBetween(old(machine.memory), machine.memory, machine.registers[SP], top)
              && machine.registers[SP] == top - Total(args) && SamePermissions(old(machine.memory), machine.memory)
              && Packed(args, pointers, top)
    ensures s.Pass? <==> AllOk(args) && StringsFit(old(machine.memory), args, stackStart, top, machine.version)
  {
    hide Store, StringAt, Writable, SamePermissions, StringsFit, Strings, OnlyBetween, Packed, Total, Wrap;
    pointers := [];
    PackedNone(args, top);
    StringsNone(machine.memory, args, stackStart, top, machine.version);
    for k := 0 to |args|
      invariant forall j :: 0 <= j < k ==> args[j].Ok?
      invariant Strings(machine.memory, Values(args[..k]), pointers, machine.registers[SP], top)
      invariant machine.registers == old(machine.registers)[SP := machine.registers[SP]]
      invariant machine.registers[SP] <= top
      invariant OnlyBetween(old(machine.memory), machine.memory, machine.registers[SP], top)
      invariant machine.registers[SP] == top - Total(args[..k])
      invariant |pointers| == k && Packed(args, pointers, top)
      invariant SamePermissions(old(machine.memory), machine.memory)
      invariant StringsFit(old(machine.memory), args[..k], stackStart, top, machine.version)
    {
      if AllOk(args) && StringsFit(old(machine.memory), args, stackStart, top, machine.version) {
        StringStores(old(machine.memory), machine.memory, args, k, stackStart, top, machine.version);
      }
      if args[k].Err? {
        return Fail(args[k].error), [];
      }
      var arg, sp := args[k].value, machine.registers[SP];
      var address := Minus(sp, |arg| + 1);
      ghost var m := machine.memory;
      var (m1, s1) := Store(machine.memory, address, arg);
      if s1.Fail? {
        return s1, [];
      }
      machine.memory := m1;
      var (m2, s2) := Store(m1, Plus(address, |arg|), [0]);
      if s2.Fail? {
        return s2, [];
      }
      ArgStored(m, sp, arg);
      StringWasWritable(old(machine.memory), m, sp, arg);
      NextTotal(args, k);
      machine.memory := m2;
      StringAdded(old(machine.memory), m, m2, Values(args[..k]), pointers, arg, sp, address, top);
      assert Values(args[..k + 1]) == Values(args[..k]) + [arg];
      PackedOne(args, pointers, top, address);
      pointers := pointers + [address];
      machine.registers := machine.registers[SP := address];
      if machine.version >= 2 && address < stackStart {
        return Fail(MemOutOfStack), [];
      }
      FitGrows(old(machine.memory), args, k, stackStart, top, machine.version);
    }
    assert args[..|args|] == args;
    return Pass, pointers;
  }

  lemma StringsNone(m: Mem, args: seq<Result<seq<byte>>>, stackStart: u64, top: u64, version: nat)
    ensures args[..0] == [] && Total(args[..0]) == 0 && StringsFit(m, args[..0], stackStart, top, version)
    ensures Strings(m, Values(args[..0]), [], top, top) && OnlyBetween(m, m, top, top) && SamePermissions(m, m)
  {
  }

  lemma StringAdded(first: Mem, m: Mem, m2: Mem, args: seq<seq<byte>>, pointers: seq<u64>, arg: seq<byte>, sp: nat,
                    at: u64, top: nat)
    requires Strings(m, args, pointers, sp, top) && OnlyBetween(first, m, sp, top) && sp <= top
    requires at == sp - |arg| - 1 && OnlyBetween(m, m2, at, sp) && StringAt(m2, at, arg)
    ensures Strings(m2, args + [arg], pointers + [at], at, top) && OnlyBetween(first, m2, at, top)
  {
    hide StringAt;
    StringsKept(m, m2, args, pointers, sp, at, sp, top);
  }

  /** `values`, last one first, so that they end up in order from the new stack pointer on. */
  method PushValues(machine: M.DefaultMachine, values: seq<u64>) returns (s: Status)
    modifies machine`registers, machine`memory
    ensures s.Pass? ==>
              && machine.registers[SP] == old(machine.registers[SP]) - 8 * |values|
              && (values != [] ==> old(machine.registers[SP]) <= |machine.memory.data|)
              && (forall k :: 0 <= k < |values| ==> WordAt(machine.memory, machine.registers[SP] + 8 * k, values[k]))
              && machine.registers == old(machine.registers)[SP := machine.registers[SP]]
              && OnlyBetween(old(machine.memory), machine.memory, machine.registers[SP], old(machine.registers[SP]))
    ensures s.Pass? <==> values == [] || Writable(old(machine.memory), old(machine.registers[SP]) - 8 * |values|,
                                                  old(machine.registers[SP]))
  {
    hide StoreWord, WordAt, Writable, SamePermissions, OnlyBetween;
    var n := |values|;
    ghost var high := machine.registers[SP];
    ValuesNone(machine.memory, high);
    while n > 0
      invariant 0 <= n <= |values| && machine.registers[SP] == high - 8 * (|values| - n)
      invariant forall k :: n <= k < |values| ==> WordAt(machine.memory, high - 8 * (|values| - k), values[k])
      invariant machine.registers == old(machine.registers)[SP := machine.registers[SP]]
      invariant OnlyBetween(old(machine.memory), machine.memory, machine.registers[SP], high)
      invariant n < |values| ==> high <= |machine.memory.data|
      invariant SamePermissions(old(machine.memory), machine.memory)
      invariant n < |values| ==> Writable(old(machine.memory), machine.registers[SP], high)
    {
      n := n - 1;
      var sp := machine.registers[SP];
      var address := Minus(sp, 8);
      WordFits(old(machine.memory), machine.memory, high - 8 * |values|, high, sp, values[n]);
      var (m, status) := StoreWord(machine.memory, address, values[n], 8);
      if status.Fail? {
        return status;
      }
      WordPushed(machine.memory, sp, values[n]);
      forall k | n < k < |values|
        ensures WordAt(m, high - 8 * (|values| - k), values[k])
      {
        WordKept(machine.memory, m, address, sp, high - 8 * (|values| - k), values[k]);
      }
      BetweenBoth(old(machine.memory), machine.memory, m, address, sp, high);
      if n + 1 < |values| {
        WritableJoin(old(machine.memory), address, sp, high);
      }
      machine.memory := m;
      machine.registers := machine.registers[SP := address];
    }
    return Pass;
  }

  lemma ValuesNone(m: Mem, high: nat)
    ensures OnlyBetween(m, m, high, high) && SamePermissions(m, m)
  {
  }

  /** A word of the values is stored exactly if its bytes are writable, which they are if all are. */
  lemma WordFits(first: Mem, m: Mem, lo: int, hi: int, sp: u64, v: u64)
    requires SamePermissions(first, m) && lo <= sp - 8 && sp <= hi
    ensures Writable(first, lo, hi) ==> StoreWord(m, Minus(sp, 8), v, 8).1.Pass?
    ensures StoreWord(m, Minus(sp, 8), v, 8).1.Pass? ==>
              && Writable(first, sp - 8, sp) && SamePermissions(first, StoreWord(m, Minus(sp, 8), v, 8).0)
  {
    hide Writable, Store, ToLe, OnlyBetween, WordAt;
    StorePasses(m, Minus(sp, 8), ToLe(v, 8));
    StoreKeepsPermissions(m, Minus(sp, 8), ToLe(v, 8));
    if Writable(first, lo, hi) {
      Nonnegative(first, lo, hi);
      WritablePart(first, lo, hi, sp - 8, sp);
      WritableAlike(first, m, sp - 8, sp);
      assert Minus(sp, 8) == sp - 8;
    }
    if StoreWord(m, Minus(sp, 8), v, 8).1.Pass? {
      WordPushed(m, sp, v);
      WritableAlike(first, m, sp - 8, sp);
    }
  }

  lemma Nonnegative(m: Mem, lo: int, hi: int)
    requires Writable(m, lo, hi)
    ensures lo >= 0
  {
  }

  /** `initialize_stack`. Without arguments only the stack pointer is set; with arguments a successful
      call leaves them all readable from a stack pointer that is 16-byte aligned and within the
      stack, and writes nowhere else. */
  method InitializeStack(machine: M.DefaultMachine, args: seq<Result<seq<byte>>>, stackStart: u64, stackSize: u64)
    returns (r: Result<u64>, ghost pointers: seq<u64>)
    requires machine.version >= 1 && |args| < 0x1_0000_0000_0000_0000
    requires stackStart + stackSize < 0x1_0000_0000_0000_0000
    modifies machine`registers, machine`memory
    ensures args == [] ==> r.Ok? && machine.memory == old(machine.memory)
    ensures args != [] ==> (r.Ok? <==> LayoutFits(old(machine.memory), args, stackStart, stackStart + stackSize))
    ensures r.Ok? ==>
              && machine.registers == old(machine.registers)[SP := machine.registers[SP]]
              && machine.registers[SP] % 16 == 0
              && r.value == Minus(stackStart + stackSize, machine.registers[SP])
    ensures args == [] ==> machine.registers[SP] == Wrap(Aligned(stackStart + stackSize - 8))
    ensures r.Ok? && args != [] ==>
              && machine.registers[SP] == LayoutStart(args, stackStart + stackSize)
              && Packed(args, pointers, stackStart + stackSize)
              && stackStart <= machine.registers[SP] <= stackStart + stackSize
              && (forall k :: 0 <= k < |args| ==> args[k].Ok?)
              && ArgsAt(machine.memory, machine.registers[SP], Values(args), pointers, stackStart + stackSize)
              && OnlyBetween(old(machine.memory), machine.memory, machine.registers[SP], stackStart + stackSize)
  {
    hide WordAt, Strings, ArgsAt, OnlyBetween, Align16, Wrap, Writable, StringsFit, LayoutFits, SamePermissions,
      Packed, Aligned, LayoutStart, Total;
    pointers := [];
    var top: u64 := stackStart + stackSize;
    ghost var before := machine.memory;
    if LayoutFits(before, args, stackStart, top) {
      FitsOk(before, args, stackStart, top);
      FittingParts(before, args, stackStart, top, machine.version);
    }
    if args == [] {
      var aligned := Align16(Minus(top, 8));
      machine.registers := machine.registers[SP := aligned];
      BelowEmpty(top);
      return Ok(Minus(top, aligned)), [];
    }
    machine.registers := machine.registers[SP := top];
    var s, addresses := PushStrings(machine, args, stackStart, top);
    if s.Fail? {
      return Err(s.error), [];
    }
    pointers := addresses;
    assert |addresses| == |args| by {
      StringsCount(machine.memory, Values(args), addresses, machine.registers[SP], top);
    }
    var values: seq<u64> := [|args|] + addresses + [0];
    var low := machine.registers[SP];
    ghost var m := machine.memory;
    var unaligned := Minus(low, 8 * |values|);
    var gap := unaligned - Align16(unaligned);
    machine.registers := machine.registers[SP := Minus(low, gap)];
    WritableAlike(before, m, Minus(low, gap) - 8 * |values|, Minus(low, gap));
    s := PushValues(machine, values);
    if s.Fail? {
      return Err(s.error), pointers;
    }
    var sp := machine.registers[SP];
    Assembled(m, machine.memory, Values(args), addresses, values, low, gap, sp, top);
    BetweenBoth(before, m, machine.memory, sp, low, top);
    WrittenLayout(before, args, stackStart, top, machine.version, low, gap, sp);
    if sp < stackStart {
      return Err(MemOutOfStack), pointers;
    }
    return Ok(Minus(top, sp)), pointers;
  }

  lemma BelowEmpty(top: u64)
    ensures Align16(Minus(top, 8)) == Wrap(Aligned(top - 8))
  {
    var x := top - 8;
    if x < 0 {
      assert Minus(top, 8) == 0x1_0000_0000_0000_0000 + x;
      assert (0x1_0000_0000_0000_0000 + x) % 16 == x % 16;
    }
  }

  lemma FitsOk(m: Mem, args: seq<Result<seq<byte>>>, stackStart: u64, top: u64)
    requires LayoutFits(m, args, stackStart, top)
    ensures AllOk(args) && stackStart <= LayoutStart(args, top)
  {
  }

  /** What was pushed was the layout, so the call succeeds exactly if it starts within the stack. */
  lemma WrittenLayout(m: Mem, args: seq<Result<seq<byte>>>, stackStart: u64, top: u64, version: nat, low: u64, gap: nat,
                      sp: u64)
    requires args != [] && AllOk(args) && StringsFit(m, args, stackStart, top, version) && low == top - Total(args)
    requires gap == Minus(low, 8 * (|args| + 2)) - Align16(Minus(low, 8 * (|args| + 2)))
    requires sp == Minus(low, gap) - 8 * (|args| + 2) && sp <= low && sp % 16 == 0 && Minus(low, gap) <= |m.data|
    requires Writable(m, sp, Minus(low, gap))
    ensures sp == LayoutStart(args, top)
    ensures LayoutFits(m, args, stackStart, top) <==> stackStart <= sp
  {
    hide Writable;
    var n := 8 * (|args| + 2);
    AlignmentGap(low, n);
    GapExact(low, gap, n, sp, Align16(Minus(low, n)), |m.data|);
    assert low - n == sp + gap && gap < 16;
    if stackStart <= sp {
      WholeLayout(m, args, stackStart, top, gap);
    }
  }

  lemma BetweenBoth(a: Mem, b: Mem, c: Mem, sp: nat, low: nat, top: nat)
    requires OnlyBetween(a, b, low, top) && OnlyBetween(b, c, sp, low) && sp <= low <= top
    ensures OnlyBetween(a, c, sp, top)
  {
  }

  /** Strings, then a gap of less than 16 bytes, then the values: that is the layout. */
  lemma Assembled(m: Mem, m': Mem, args: seq<seq<byte>>, pointers: seq<u64>, values: seq<u64>, low: u64, gap: nat,
                  sp: u64, top: nat)
    requires Strings(m, args, pointers, low, top) && |args| < 0x1_0000_0000_0000_0000
    requires values == [|args|] + pointers + [0]
    requires gap == Minus(low, 8 * |values|) - Align16(Minus(low, 8 * |values|))
    requires sp == Minus(low, gap) - 8 * |values| && Minus(low, gap) <= |m'.data|
    requires forall k :: 0 <= k < |values| ==> WordAt(m', sp + 8 * k, values[k])
    requires OnlyBetween(m, m', sp, Minus(low, gap))
    ensures sp % 16 == 0 && sp <= low && OnlyBetween(m, m', sp, low)
    ensures ArgsAt(m', sp, args, pointers, top)
  {
    hide WordAt, StringAt, Align16, Wrap;
    AlignmentGap(low, 8 * |values|);
    GapExact(low, gap, 8 * |values|, sp, Align16(Minus(low, 8 * |values|)), |m'.data|);
    StringsKept(m, m', args, pointers, low, sp, low - gap, top);
    StringsLower(m', args, pointers, low, sp + 8 * |values|, top);
    forall k | 0 <= k < |args|
      ensures WordAt(m', sp + 8 + 8 * k, pointers[k])
    {
      assert values[k + 1] == pointers[k];
      assert WordAt(m', sp + 8 * (k + 1), values[k + 1]);
    }
    assert WordAt(m', sp + 8 * 0, values[0]);
    assert WordAt(m', sp + 8 * (|args| + 1), values[|args| + 1]);
  }

  lemma StringsCount(m: Mem, args: seq<seq<byte>>, pointers: seq<u64>, low: nat, top: nat)
    requires Strings(m, args, pointers, low, top)
    ensures |pointers| == |args|
  {
  }

  lemma StringsLower(m: Mem, args: seq<seq<byte>>, pointers: seq<u64>, low: nat, low': nat, top: nat)
    requires Strings(m, args, pointers, low, top) && low' <= low
    ensures Strings(m, args, pointers, low', top)
  {
  }

  /** The pushes succeeded without wrapping, so neither did the alignment. */
  lemma GapExact(low: u64, gap: nat, n: nat, sp: u64, aligned: u64, size: nat)
    requires gap < 16 && sp == Minus(low, gap) - n && n >= 16
    requires Minus(Minus(low, gap), n) == aligned
    requires Minus(low, gap) <= size < 0x8000_0000_0000_0000
    ensures sp == aligned && Minus(low, gap) == low - gap
  {
  }

  // ---- FlattenedArgsReader ----

  /** The bytes from `addr` on, up to the first zero. */
  function CString(m: Mem, addr: u64): Result<seq<byte>>
    decreases |m.data| - addr
  {
    match Load(m, addr, 1)
    case Err(e) => Err(e)
    case Ok(b) =>
      if b == 0 then Ok([])
      else
        LoadsInRange(m, addr, 1);
        Behind([b % 0x100], CString(m, Plus(addr, 1)))
  }

  function Behind(s: seq<byte>, r: Result<seq<byte>>): Result<seq<byte>> {
    if r.Ok? then Ok(s + r.value) else r
  }

  lemma BehindNothing(r: Result<seq<byte>>)
    ensures Behind([], r) == r
  {
    if r.Ok? {
      assert [] + r.value == r.value;
    }
  }

  lemma BehindOne(s: seq<byte>, b: byte, r: Result<seq<byte>>)
    ensures Behind(s, Behind([b], r)) == Behind(s + [b], r)
  {
    if r.Ok? {
      assert s + ([b] + r.value) == (s + [b]) + r.value;
    }
  }

  lemma LoadsInRange(m: Mem, addr: u64, n: nat)
    requires 0 < n <= 8 && Load(m, addr, n).Ok?
    ensures addr + n <= |m.data| && Plus(addr, n) == addr + n
  {
  }

  /** `load_c_string_byte_by_byte` */
  method LoadCString(m: Mem, at: u64) returns (r: Result<seq<byte>>)
    ensures r == CString(m, at)
  {
    var buffer: seq<byte>, addr := [], at;
    BehindNothing(CString(m, at));
    while true
      invariant CString(m, at) == Behind(buffer, CString(m, addr))
      decreases |m.data| - addr
    {
      var b := Load(m, addr, 1);
      if b.Err? {
        return Err(b.error);
      }
      if b.value == 0 {
        assert buffer + [] == buffer;
        return Ok(buffer);
      }
      LoadsInRange(m, addr, 1);
      BehindOne(buffer, b.value % 0x100, CString(m, Plus(addr, 1)));
      buffer, addr := buffer + [b.value % 0x100], Plus(addr, 1);
    }
  }

  function UpToNul(s: seq<byte>): (r: seq<byte>)
    ensures r <= s && 0 !in r && (r == s || s[|r|] == 0)
  {
    if s == [] || s[0] == 0 then [] else [s[0]] + UpToNul(s[1..])
  }

  lemma LoadByte(m: Mem, at: nat)
    requires at < |m.data|
    ensures Load(m, at, 1) == Ok(m.data[at])
  {
    assert m.data[at..at + 1] == [m.data[at]];
    assert [m.data[at]][1..] == [];
  }

  lemma LoadWordAt(m: Mem, at: nat, v: u64)
    requires WordAt(m, at, v)
    ensures at < 0x8000_0000_0000_0000 && Load(m, at, 8) == Ok(v)
  {
    LeRoundTrip(v, 8);
  }

  lemma {:induction false} CStringRead(m: Mem, at: nat, s: seq<byte>)
    requires StringAt(m, at, s)
    ensures CString(m, at) == Ok(UpToNul(s))
    decreases |s|
  {
    hide Load;
    LoadByte(m, at);
    if s != [] {
      assert m.data[at] == m.data[at..at + |s|][0] == s[0];
      if s[0] != 0 {
        assert Plus(at, 1) == at + 1;
        assert m.data[at + 1..at + 1 + |s[1..]|] == m.data[at..at + |s|][1..];
        CStringRead(m, at + 1, s[1..]);
      }
    }
  }

  class FlattenedArgsReader {
    const memory: Mem
    const argc: u64
    var argv: u64
    var cidx: u64

    constructor (memory: Mem, argc: u64, argv: u64)
      ensures this.memory == memory && this.argc == argc && this.argv == argv && cidx == 0
    {
      this.memory, this.argc, this.argv, this.cidx := memory, argc, argv, 0;
    }

    /** The next argument; an error does not advance the reader. */
    method Next() returns (item: Option<Result<seq<byte>>>)
      modifies this
      ensures item.None? <==> old(cidx) >= argc
      ensures item.Some? ==>
                item.value ==
                match Load(memory, old(argv), 8)
                case Err(e) => Err(e)
                case Ok(addr) => CString(memory, addr)
      ensures if item.Some? && item.value.Ok? then cidx == Plus(old(cidx), 1) && argv == Plus(old(argv), 8)
              else cidx == old(cidx) && argv == old(argv)
    {
      if cidx >= argc {
        return None;
      }
      var addr := Load(memory, argv, 8);
      if addr.Err? {
        return Some(Err(addr.error));
      }
      var cstr := LoadCString(memory, addr.value);
      if cstr.Err? {
        return Some(Err(cstr.error));
      }
      cidx, argv := Plus(cidx, 1), Plus(argv, 8);
      return Some(cstr);
    }
  }

  function UpToNulAll(args: seq<seq<byte>>): seq<seq<byte>> {
    seq(|args|, k requires 0 <= k < |args| => UpToNul(args[k]))
  }

  /** The program's own view: argc from `sp`, argv behind it. It reads every argument up to its first
      NUL byte, so it reads back exactly what was pushed if and only if no argument contains one. */
  method ReadArgs(m: Mem, sp: u64, ghost args: seq<seq<byte>>, ghost pointers: seq<u64>, ghost top: nat)
    returns (r: Result<seq<seq<byte>>>)
    requires ArgsAt(m, sp, args, pointers, top)
    ensures r == Ok(UpToNulAll(args))
    ensures r == Ok(args) <==> forall k :: 0 <= k < |args| ==> 0 !in args[k]
  {
    hide Load, StringAt, WordAt, CString;
    LoadWordAt(m, sp, |args|);
    var argc := Load(m, sp, 8);
    var reader := new FlattenedArgsReader(m, argc.value, Plus(sp, 8));
    var read: seq<seq<byte>> := [];
    SpInRange(m, sp, |args|);
    while true
      invariant reader.cidx == |read| <= |args| && reader.argv == sp + 8 + 8 * |read|
      invariant read == UpToNulAll(args[..|read|])
      decreases |args| - |read|
    {
      ghost var k := |read|;
      if k < |args| {
        LoadWordAt(m, sp + 8 + 8 * k, pointers[k]);
        CStringRead(m, pointers[k], args[k]);
        SpInRange(m, sp + 8 + 8 * k, pointers[k]);
      }
      var item := reader.Next();
      if item.None? {
        assert args[..|read|] == args;
        NulFree(args);
        return Ok(read);
      }
      assert UpToNulAll(args[..k + 1]) == UpToNulAll(args[..k]) + [UpToNul(args[k])];
      read := read + [item.value.value];
    }
  }

  lemma SpInRange(m: Mem, at: nat, v: u64)
    requires WordAt(m, at, v)
    ensures at + 8 <= |m.data| && Plus(at, 8) == at + 8
  {
  }

  lemma NulFree(args: seq<seq<byte>>)
    ensures UpToNulAll(args) == args <==> forall k :: 0 <= k < |args| ==> 0 !in args[k]
  {
    var got := UpToNulAll(args);
    if got == args {
      forall k | 0 <= k < |args|
        ensures 0 !in args[k]
      {
        assert got[k] == args[k];
      }
    } else {
      assert exists k :: 0 <= k < |args| && got[k] != args[k];
    }
  }

  /** What is pushed is what is read back. */
  method ArgsRoundTrip(machine: M.DefaultMachine, args: seq<seq<byte>>, stackStart: u64, stackSize: u64)
    returns (r: Result<u64>, read: Result<seq<seq<byte>>>)
    requires machine.version >= 1 && 0 < |args| < 0x1_0000_0000_0000_0000
    requires stackStart + stackSize < 0x1_0000_0000_0000_0000
    requires forall k :: 0 <= k < |args| ==> 0 !in args[k]
    modifies machine`registers, machine`memory
    ensures r.Ok? ==> read == Ok(args)
  {
    hide ArgsAt;
    ghost var pointers;
    var given := seq(|args|, k requires 0 <= k < |args| => Ok(args[k]));
    r, pointers := InitializeStack(machine, given, stackStart, stackSize);
    if r.Err? {
      return r, Err(r.error);
    }
    assert Values(given) == args;
    read := ReadArgs(machine.memory, machine.registers[SP], args, pointers, stackStart + stackSize);
  }
}
