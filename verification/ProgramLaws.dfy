/** What the program loader reports, which headers it takes, and which pages marking puts on the map. */
module ProgramLaws {
  import opened Words
  import opened Outcomes
  import opened Pages
  import opened CodeFreeze
  import opened Tracking
  import opened LoadBinary
  import opened DataLoads

  // ---- Headers ----

  /** A header is taken exactly when its slice lies within the file and its permissions convert. */
  lemma HeaderIsTaken(h: ProgramHeader, programLength: u64, allowFreezeWritable: bool)
    ensures ParseHeader(h, programLength, allowFreezeWritable).Ok? <==>
              && h.offset + h.filesz <= programLength
              && h.flags & PF_R != 0 && !(h.flags & PF_W != 0 && h.flags & PF_X != 0)
    ensures h.offset + h.filesz > programLength ==>
              ParseHeader(h, programLength, allowFreezeWritable) == Err(ElfSegmentAddrOrSizeError(h.vaddr))
    ensures var r := ParseHeader(h, programLength, allowFreezeWritable);
            r.Ok? ==> Ok(r.value.flags) == ConvertFlags(h.flags, allowFreezeWritable, h.vaddr)
  {
    hide RoundUp, RoundDown, ConvertFlags;
    SliceEnd(h.offset, h.filesz);
  }

  // ---- The byte count ----

  /** File bytes of all actions together. */
  function BytesOf(actions: seq<LoadingAction>): int {
    if actions == [] then 0 else actions[0].sourceEnd - actions[0].sourceStart + BytesOf(actions[1..])
  }

  /** Every action in turn goes through. */
  ghost predicate AllLoad(m: Mem, program: seq<byte>, actions: seq<LoadingAction>)
    requires AllWellFormed(actions, program)
    decreases |actions|
  {
    actions == [] ||
    (LoadAction(m, program, actions[0]).1.Pass? && AllLoad(LoadAction(m, program, actions[0]).0, program, actions[1..]))
  }

  /** The first `k` actions go through, and with the last of them the count reaches 2^64. */
  ghost predicate CountOverflows(m: Mem, program: seq<byte>, actions: seq<LoadingAction>, bytes: u64, k: nat)
    requires AllWellFormed(actions, program)
  {
    && 0 < k <= |actions| && AllLoad(m, program, actions[..k])
    && bytes + BytesOf(actions[..k - 1]) < 0x1_0000_0000_0000_0000 <= bytes + BytesOf(actions[..k])
  }

  lemma {:induction false} BytesNotNegative(actions: seq<LoadingAction>, program: seq<byte>)
    requires AllWellFormed(actions, program)
    ensures BytesOf(actions) >= 0
  {
    if actions != [] {
      BytesNotNegative(actions[1..], program);
    }
  }

  /** `load_binary_inner` counts the file bytes of all actions. It succeeds exactly when they all load and
      the count fits. */
  lemma {:induction false} CountExact(m: Mem, program: seq<byte>, actions: seq<LoadingAction>, bytes: u64)
    requires AllWellFormed(actions, program)
    ensures var r := LoadActions(m, program, actions, bytes).1;
            && (r.Ok? <==> AllLoad(m, program, actions) && bytes + BytesOf(actions) < 0x1_0000_0000_0000_0000)
            && (r.Ok? ==> r.value == bytes + BytesOf(actions))
    decreases |actions|
  {
    hide LoadAction;
    if actions != [] {
      var (m1, s) := LoadAction(m, program, actions[0]);
      var more := bytes + (actions[0].sourceEnd - actions[0].sourceStart);
      BytesNotNegative(actions[1..], program);
      if s.Pass? && more < 0x1_0000_0000_0000_0000 {
        CountExact(m1, program, actions[1..], more);
      }
    }
  }

  /** It fails for the count exactly when every action so far loads and the count first reaches 2^64. */
  lemma {:induction false} CountFails(m: Mem, program: seq<byte>, actions: seq<LoadingAction>, bytes: u64)
    requires AllWellFormed(actions, program)
    ensures LoadActions(m, program, actions, bytes).1 == Err(Unexpected)
       <==> exists k :: CountOverflows(m, program, actions, bytes, k)
    decreases |actions|
  {
    hide LoadAction, AllLoad;
    if actions != [] {
      var a, rest := actions[0], actions[1..];
      var (m1, s) := LoadAction(m, program, a);
      var more := bytes + (a.sourceEnd - a.sourceStart);
      NotUnexpected(m, program, a);
      FirstOverflows(m, program, actions, bytes);
      if s.Pass? && more < 0x1_0000_0000_0000_0000 {
        CountFails(m1, program, rest, more);
        if k: nat :| CountOverflows(m, program, actions, bytes, k) {
          LaterOverflows(m, program, actions, bytes, k);
        }
        if k: nat :| CountOverflows(m1, program, rest, more, k) {
          LaterOverflows(m, program, actions, bytes, k + 1);
        }
      }
    }
  }

  lemma FirstOverflows(m: Mem, program: seq<byte>, actions: seq<LoadingAction>, bytes: u64)
    requires AllWellFormed(actions, program) && actions != []
    ensures var more := bytes + (actions[0].sourceEnd - actions[0].sourceStart);
            && (LoadAction(m, program, actions[0]).1.Fail? ==>
                  forall k :: !CountOverflows(m, program, actions, bytes, k))
            && (CountOverflows(m, program, actions, bytes, 1) <==>
                  LoadAction(m, program, actions[0]).1.Pass? && more >= 0x1_0000_0000_0000_0000)
  {
    hide LoadAction;
    assert actions[..1] == [actions[0]] && actions[..0] == [] && [actions[0]][1..] == [];
    assert AllLoad(m, program, [actions[0]]) <==> LoadAction(m, program, actions[0]).1.Pass?;
    assert BytesOf([actions[0]]) == actions[0].sourceEnd - actions[0].sourceStart;
  }

  lemma LaterOverflows(m: Mem, program: seq<byte>, actions: seq<LoadingAction>, bytes: u64, k: nat)
    requires AllWellFormed(actions, program) && 1 < k <= |actions|
    requires LoadAction(m, program, actions[0]).1.Pass?
    requires bytes + (actions[0].sourceEnd - actions[0].sourceStart) < 0x1_0000_0000_0000_0000
    ensures CountOverflows(m, program, actions, bytes, k)
       <==> CountOverflows(LoadAction(m, program, actions[0]).0, program, actions[1..],
                           bytes + (actions[0].sourceEnd - actions[0].sourceStart), k - 1)
  {
    hide LoadAction;
    assert actions[..k][1..] == actions[1..][..k - 1] && actions[..k - 1][1..] == actions[1..][..k - 2];
  }

  lemma NotUnexpected(m: Mem, program: seq<byte>, a: LoadingAction)
    requires WellFormed(a, program)
    ensures LoadAction(m, program, a).1 != Fail(Unexpected)
  {
    InitPagesErrors(m, a.addr, a.size, a.flags, Some(Source(a, program)), a.offsetFromAddr);
  }

  lemma InitPagesErrors(m: Mem, addr: u64, size: u64, flags: PageFlags, source: Option<seq<byte>>, offset: u64)
    ensures InitPages(m, addr, size, flags, source, offset).1 != Fail(Unexpected)
  {
    hide RoundUp, Put, FirstFreezed, AddFlags, Repeat;
  }

  // ---- Marking ----

  /** Page `p` lies wholly within what the file has of the segment, and within the action's pages. */
  predicate MarkedBy(a: LoadingAction, p: nat) {
    var start := a.addr + a.offsetFromAddr;
    Whole(start, a.sourceEnd - a.sourceStart, p) && Whole(start, a.size - a.offsetFromAddr, p)
  }

  /** Action `k` is the last to mark page `p`. */
  ghost predicate LastToMark(actions: seq<LoadingAction>, k: nat, p: nat) {
    k < |actions| && MarkedBy(actions[k], p) && forall j :: k < j < |actions| ==> !MarkedBy(actions[j], p)
  }

  ghost predicate InMemory(m: Mem, a: LoadingAction)
    requires a.sourceStart <= a.sourceEnd && a.offsetFromAddr <= a.size
  {
    a.addr + a.offsetFromAddr + MarkedLength(a) <= |m.data|
  }

  lemma MarkOneExact(m: Mem, pages: PageMap, a: LoadingAction, id: Id, offset: u64)
    requires a.sourceStart <= a.sourceEnd && a.offsetFromAddr <= a.size && InMemory(m, a)
    ensures var (m', pages', s) := MarkAction(m, pages, a, id, offset);
            && s.Pass? && OnlyFlags(m, m')
            && (forall p :: 0 <= p < |m.flags| ==>
                  m'.flags[p] == if MarkedBy(a, p) then m.flags[p].(dirty := false) else m.flags[p])
            && (forall q: u64 ::
                  && (q in pages' <==> q in pages || MarkedBy(a, q))
                  && (MarkedBy(a, q) ==> q < |m.flags| && pages'[q] == MarkOf(m, a, id, offset, q))
                  && (q in pages && !MarkedBy(a, q) ==> pages'[q] == pages[q]))
  {
    hide TrackPages, Wrap;
    assert Plus(a.addr, a.offsetFromAddr) == a.addr + a.offsetFromAddr by { NoCarry(a.addr + a.offsetFromAddr); }
    TrackPagesExact(m, pages, a.addr + a.offsetFromAddr, MarkedLength(a), id, Plus(offset, a.sourceStart));
    forall q: u64 | Whole(a.addr + a.offsetFromAddr, MarkedLength(a), q) && q < |m.flags|
      ensures EntryOf(m, a.addr + a.offsetFromAddr, id, Plus(offset, a.sourceStart), q) == MarkOf(m, a, id, offset, q)
    {
      WrapInner(offset + a.sourceStart, 4096 * q - (a.addr + a.offsetFromAddr));
    }
  }

  lemma NoCarry(x: u64)
    ensures Wrap(x) == x
  {
  }

  /** The entry: the place in the source of the page's part of the segment, and its flags without DIRTY. */
  function MarkOf(m: Mem, a: LoadingAction, id: Id, offset: nat, p: nat): Tracked
    requires p < |m.flags|
  {
    Tracked(id, Wrap(offset + a.sourceStart + (4096 * p - (a.addr + a.offsetFromAddr))), m.flags[p].(dirty := false))
  }

  /** `mark_program` enters exactly the pages that lie wholly within some segment's file bytes, each with
      its place in the source, and takes their dirty bit away. */
  lemma {:induction false} MarkExact(m: Mem, pages: PageMap, actions: seq<LoadingAction>, id: Id, offset: u64)
    requires Markable(actions) && forall k :: 0 <= k < |actions| ==> InMemory(m, actions[k])
    ensures var (m', pages', s) := MarkActions(m, pages, actions, id, offset);
            && s.Pass? && OnlyFlags(m, m')
            && (forall p :: 0 <= p < |m.flags| ==>
                  m'.flags[p] == if MarkedBySome(actions, p) then m.flags[p].(dirty := false) else m.flags[p])
            && (forall q: u64 ::
                  && (q in pages' <==> q in pages || MarkedBySome(actions, q))
                  && (q in pages && !MarkedBySome(actions, q) ==> pages'[q] == pages[q]))
            && (forall q: u64, k: nat :: LastToMark(actions, k, q) ==>
                  q in pages' && q < |m.flags| && pages'[q] == MarkOf(m, actions[k], id, offset, q))
    decreases |actions|
  {
    hide MarkAction, MarkedBy, Wrap;
    if actions != [] {
      var a, rest := actions[0], actions[1..];
      var (m1, pages1, _) := MarkAction(m, pages, a, id, offset);
      MarkOneExact(m, pages, a, id, offset);
      forall k | 0 <= k < |rest|
        ensures InMemory(m1, rest[k])
      {
        assert InMemory(m, actions[k + 1]);
      }
      MarkExact(m1, pages1, rest, id, offset);
      forall p: nat
        ensures MarkedBySome(actions, p) <==> MarkedBy(a, p) || MarkedBySome(rest, p)
      {
        SomeOrRest(actions, p);
      }
      var (m', pages', _) := MarkActions(m1, pages1, rest, id, offset);
      forall q: u64, k: nat | LastToMark(actions, k, q)
        ensures q in pages' && q < |m.flags| && pages'[q] == MarkOf(m, actions[k], id, offset, q)
      {
        if k > 0 {
          LastInRest(actions, k, q);
        } else {
          assert !MarkedBySome(rest, q);
        }
      }
    }
  }

  ghost predicate MarkedBySome(actions: seq<LoadingAction>, p: nat) {
    exists k :: 0 <= k < |actions| && MarkedBy(actions[k], p)
  }

  lemma SomeOrRest(actions: seq<LoadingAction>, p: nat)
    requires actions != []
    ensures MarkedBySome(actions, p) <==> MarkedBy(actions[0], p) || MarkedBySome(actions[1..], p)
  {
    hide MarkedBy;
    if MarkedBySome(actions[1..], p) {
      var k :| 0 <= k < |actions[1..]| && MarkedBy(actions[1..][k], p);
      assert MarkedBy(actions[k + 1], p);
    }
  }

  lemma LastInRest(actions: seq<LoadingAction>, k: nat, p: nat)
    requires k > 0 && LastToMark(actions, k, p)
    ensures LastToMark(actions[1..], k - 1, p)
  {
    hide MarkedBy;
  }
}
