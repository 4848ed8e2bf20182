/** Every call a guarded memory can receive, in any order: both backends answer alike, and no
    sequence of calls changes a byte that was executable. */
module Traffic {
  import opened Words
  import opened Outcomes
  import opened Pages
  import opened Sparse
  import opened WXorX

  datatype Call =
    | StoreBytes(addr: u64, bytes: seq<byte>)
    | StoreByte(addr: u64, size: nat, value: byte)
    | StoreWord(addr: u64, word: u64, n: nat)
    | Load(addr: u64, n: nat)
    | LoadBytes(addr: u64, size: nat)
    | ExecuteLoad(addr: u64, n: nat)
    | InitPages(addr: u64, bytesLen: u64, flags: PageFlags, source: Option<seq<byte>>, offset: u64)
    | FetchFlag(page: u64)
    | SetFlag(page: u64, flag: PageFlags)
    | ClearFlag(page: u64, flag: PageFlags)
    | GetLr
    | SetLr(word: u64)
  {
    /** Word accesses are 1, 2, 4 or 8 bytes wide. */
    predicate Valid() {
      (StoreWord? || Load? || ExecuteLoad?) ==> n in {1, 2, 4, 8}
    }
  }

  datatype Reply = Done | Word(word: u64) | Bytes(bytes: seq<byte>) | Flag(flag: PageFlags) | Failed(error: Error)

  function FromStatus(s: Status): Reply {
    if s.Pass? then Done else Failed(s.error)
  }

  function FromWord(r: Result<u64>): Reply {
    if r.Ok? then Word(r.value) else Failed(r.error)
  }

  /** One call on the memory value. */
  function Respond(m: Mem, c: Call): (Mem, Reply)
    requires c.Valid()
  {
    match c
    case StoreBytes(addr, bytes) => var (m', s) := Pages.Store(m, addr, bytes); (m', FromStatus(s))
    case StoreByte(addr, size, value) =>
      var (m', s) := Pages.Store(m, addr, Repeat(size, value)); (m', FromStatus(s))
    case StoreWord(addr, word, n) => var (m', s) := Pages.StoreWord(m, addr, word, n); (m', FromStatus(s))
    case Load(addr, n) => (m, FromWord(Pages.Load(m, addr, n)))
    case LoadBytes(addr, size) =>
      var r := Pages.LoadBytes(m, addr, size);
      (m, if r.Ok? then Bytes(r.value) else Failed(r.error))
    case ExecuteLoad(addr, n) => (m, FromWord(Pages.ExecuteLoad(m, addr, n)))
    case InitPages(addr, size, flags, source, offset) =>
      var (m', s) := Pages.InitPages(m, addr, size, flags, source, offset); (m', FromStatus(s))
    case FetchFlag(page) =>
      var r := Pages.FetchFlag(m, page);
      (m, if r.Ok? then Flag(r.value) else Failed(r.error))
    case SetFlag(page, flag) => var (m', s) := Pages.SetFlag(m, page, flag); (m', FromStatus(s))
    case ClearFlag(page, flag) => var (m', s) := Pages.ClearFlag(m, page, flag); (m', FromStatus(s))
    case GetLr => (m, Word(m.lr))
    case SetLr(word) => (m.(lr := word), Done)
  }

  ghost predicate AllValid(calls: seq<Call>) {
    forall k :: 0 <= k < |calls| ==> calls[k].Valid()
  }

  function After(m: Mem, calls: seq<Call>): Mem
    requires AllValid(calls)
    decreases |calls|
  {
    if calls == [] then m else After(Respond(m, calls[0]).0, calls[1..])
  }

  function Replies(m: Mem, calls: seq<Call>): (rs: seq<Reply>)
    requires AllValid(calls)
    ensures |rs| == |calls|
    decreases |calls|
  {
    if calls == [] then [] else [Respond(m, calls[0]).1] + Replies(Respond(m, calls[0]).0, calls[1..])
  }

  /** The reply of a sparse memory: a load off the end reports the first page it could not reach. */
  function SparseReply(m: Mem, c: Call): Reply
    requires c.Valid()
  {
    if c.Load? then FromWord(SparseLoad(m, c.addr, c.n)) else Respond(m, c).1
  }

  function SparseReplies(m: Mem, calls: seq<Call>): (rs: seq<Reply>)
    requires AllValid(calls)
    ensures |rs| == |calls|
    decreases |calls|
  {
    if calls == [] then [] else [SparseReply(m, calls[0])] + SparseReplies(Respond(m, calls[0]).0, calls[1..])
  }

  /** The same reply, up to the address that an out-of-bound load reports. */
  predicate Alike(c: Call, a: Reply, b: Reply) {
    a == b || (c.Load? && a.Failed? && b.Failed? && a.error.MemOutOfBound? && b.error.MemOutOfBound?)
  }

  lemma AlikeReplies(m: Mem, c: Call)
    requires c.Valid()
    ensures Alike(c, SparseReply(m, c), Respond(m, c).1)
  {
  }

  // ---- Both backends answer as the memory value does ----

  method Serve(w: WXorXMemory, c: Call) returns (reply: Reply)
    requires w.Valid() && c.Valid()
    modifies w.inner.Objects()
    ensures w.Valid() && w.Contents() == Respond(old(w.Contents()), c).0
    ensures w.inner.FlatBacked? ==> reply == Respond(old(w.Contents()), c).1
    ensures w.inner.SparseBacked? ==> reply == SparseReply(old(w.Contents()), c)
  {
    match c {
      case StoreBytes(addr, bytes) =>
        var s := w.StoreBytes(addr, bytes);
        reply := FromStatus(s);
      case StoreByte(addr, size, value) =>
        var s := w.StoreByte(addr, size, value);
        reply := FromStatus(s);
      case StoreWord(addr, word, n) =>
        var s := w.StoreWord(addr, word, n);
        reply := FromStatus(s);
      case Load(addr, n) =>
        var r := w.inner.Load(addr, n);
        reply := FromWord(r);
      case LoadBytes(addr, size) =>
        var r := w.inner.LoadBytes(addr, size);
        reply := if r.Ok? then Bytes(r.value) else Failed(r.error);
      case ExecuteLoad(addr, n) =>
        var r := w.ExecuteLoad(addr, n);
        reply := FromWord(r);
      case InitPages(addr, size, flags, source, offset) =>
        var s := w.InitPages(addr, size, flags, source, offset);
        reply := FromStatus(s);
      case FetchFlag(page) =>
        var r := w.inner.FetchFlag(page);
        reply := if r.Ok? then Flag(r.value) else Failed(r.error);
      case SetFlag(page, flag) =>
        var s := w.inner.SetFlag(page, flag);
        reply := FromStatus(s);
      case ClearFlag(page, flag) =>
        var s := w.inner.ClearFlag(page, flag);
        reply := FromStatus(s);
      case GetLr =>
        var r := w.inner.Lr();
        reply := Word(r);
      case SetLr(word) =>
        w.inner.SetLr(word);
        reply := Done;
    }
  }

  /** Over any sequence of calls, a sparse and a flat memory that start with the same contents
      give the same replies, up to the address in an out-of-bound load, and end with the same
      contents. */
  method ServeBoth(flat: WXorXMemory, sparse: WXorXMemory, calls: seq<Call>)
    returns (fromFlat: seq<Reply>, fromSparse: seq<Reply>)
    requires flat.Valid() && sparse.Valid() && AllValid(calls)
    requires flat.inner.FlatBacked? && sparse.inner.SparseBacked? && flat.inner.Objects() !! sparse.inner.Objects()
    requires flat.Contents() == sparse.Contents()
    modifies flat.inner.Objects(), sparse.inner.Objects()
    ensures flat.Valid() && sparse.Valid()
    ensures flat.Contents() == sparse.Contents() == After(old(flat.Contents()), calls)
    ensures |fromFlat| == |fromSparse| == |calls|
    ensures forall k :: 0 <= k < |calls| ==> Alike(calls[k], fromSparse[k], fromFlat[k])
    ensures fromFlat == Replies(old(flat.Contents()), calls)
    ensures fromSparse == SparseReplies(old(flat.Contents()), calls)
  {
    hide Respond, SparseReply, Alike;
    fromFlat, fromSparse := [], [];
    ghost var m := flat.Contents();
    for k := 0 to |calls|
      invariant flat.Valid() && sparse.Valid() && flat.Contents() == sparse.Contents()
      invariant |fromFlat| == |fromSparse| == k
      invariant After(m, calls) == After(flat.Contents(), calls[k..])
      invariant fromFlat + Replies(flat.Contents(), calls[k..]) == Replies(m, calls)
      invariant fromSparse + SparseReplies(flat.Contents(), calls[k..]) == SparseReplies(m, calls)
      invariant forall j :: 0 <= j < k ==> Alike(calls[j], fromSparse[j], fromFlat[j])
    {
      ghost var now := flat.Contents();
      var a := Serve(flat, calls[k]);
      var b := Serve(sparse, calls[k]);
      assert calls[k..][1..] == calls[k + 1..];
      ghost var rest := Replies(flat.Contents(), calls[k + 1..]);
      ghost var sparseRest := SparseReplies(flat.Contents(), calls[k + 1..]);
      assert fromFlat + ([a] + rest) == (fromFlat + [a]) + rest;
      assert fromSparse + ([b] + sparseRest) == (fromSparse + [b]) + sparseRest;
      AlikeReplies(now, calls[k]);
      fromFlat, fromSparse := fromFlat + [a], fromSparse + [b];
    }
  }
}
