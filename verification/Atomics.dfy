/** What load-reserved, store-conditional and the read-modify-write atomics do. */
module Atomics {
  import opened Words
  import opened Outcomes
  import opened Pages
  import opened Instructions
  import opened Exec

  const UNRESERVED: u64 := 0xFFFF_FFFF_FFFF_FFFF

  /** Only the bytes of `[at, at + n)` may differ, and they hold the low bytes of `word`. */
  ghost predicate WordWritten(m: Mem, m': Mem, at: nat, word: u64, n: nat) {
    && |m'.data| == |m.data| && at + n <= |m.data|
    && m'.data[at..at + n] == ToLe(word, n)
    && forall k :: 0 <= k < |m.data| && !(at <= k < at + n) ==> m'.data[k] == m.data[k]
  }

  /** Registers as before, but for what `rd` was given. */
  ghost predicate OnlyRegister(r: RegFile, r': RegFile, rd: Reg, v: u64) {
    forall k: Reg :: r'[k] == if k == rd && k != 0 then v else r[k]
  }

  /** A store may go ahead: in bounds, and no touched page executable. */
  ghost predicate Storable(m: Mem, at: nat, n: nat)
    requires n > 0
  {
    at + n <= |m.data| && PagesAre(m, at / 4096, (at + n - 1) / 4096, false)
  }

  lemma WordStored(m: Mem, at: u64, word: u64, n: nat)
    requires 0 < n <= 8
    ensures StoreWord(m, at, word, n).1.Pass? <==> Storable(m, at, n)
    ensures StoreWord(m, at, word, n).1.Pass? ==>
              WordWritten(m, StoreWord(m, at, word, n).0, at, word, n) && StoreWord(m, at, word, n).0.lr == m.lr
    ensures StoreWord(m, at, word, n).1.Fail? ==> StoreWord(m, at, word, n).0 == m
  {
    hide ToLe;
    assert ToLe(word, n) != [];
  }

  lemma {:induction false} BytesOfWord(s: seq<byte>)
    ensures ToLe(FromLe(s), |s|) == s
  {
    if s != [] {
      BytesOfWord(s[1..]);
      assert FromLe(s) % 0x100 == s[0] && FromLe(s) / 0x100 == FromLe(s[1..]);
      assert s == [s[0]] + s[1..];
    }
  }

  /** Storing what was loaded changes no byte. */
  lemma StoredBack(m: Mem, at: u64, n: nat)
    requires 0 < n <= 8 && Load(m, at, n).Ok? && StoreWord(m, at, Load(m, at, n).value, n).1.Pass?
    ensures StoreWord(m, at, Load(m, at, n).value, n).0.data == m.data
  {
    hide ToLe, FromLe;
    BytesOfWord(m.data[at..at + n]);
    WordStored(m, at, Load(m, at, n).value, n);
    var m' := StoreWord(m, at, Load(m, at, n).value, n).0;
    forall k | 0 <= k < |m.data|
      ensures m'.data[k] == m.data[k]
    {
      if at <= k < at + n {
        assert m'.data[at..at + n][k - at] == m.data[at..at + n][k - at];
      }
    }
  }

  /** Load-reserved remembers its address, and loads sign-extended. */
  lemma ReservedLaw(i: Inst, s: State, n: nat)
    requires n == 4 || n == 8
    ensures var o, at := LoadReserved(i, s, n), s.regs[i.rs1];
            && (o.err.None? <==> at + n <= |s.mem.data|)
            && o.st.mem == (if o.err.None? then s.mem.(lr := at) else s.mem)
            && (o.err.None? ==> OnlyRegister(s.regs, o.st.regs, i.rd, SignExtend(LeWord(s.mem.data[at..at + n]), n)))
            && (o.err.Some? ==> o.st.regs == s.regs)
  {
    hide SignExtend, LeWord;
  }

  /** What a store-conditional leaves. It succeeds exactly where a store would. Then the reservation is
      dropped, `rd` tells whether it was held, and the new word is in memory only if it was: with the
      reservation lost no byte changes. If it fails, registers, memory and reservation are as before. */
  lemma ConditionalLaw(i: Inst, s: State, n: nat)
    requires n == 4 || n == 8
    ensures var o, at := StoreConditional(i, s, n), s.regs[i.rs1];
            && (o.err.None? <==> Storable(s.mem, at, n))
            && (o.err.None? ==>
                  && o.st.mem.lr == UNRESERVED
                  && OnlyRegister(s.regs, o.st.regs, i.rd, if at == s.mem.lr then 0 else 1)
                  && (if at == s.mem.lr then WordWritten(s.mem, o.st.mem, at, s.regs[i.rs2], n)
                      else o.st.mem.data == s.mem.data))
            && (o.err.Some? ==> o.st.regs == s.regs && o.st.mem == s.mem)
  {
    hide Load, StoreWord, WordWritten;
    var at := s.regs[i.rs1];
    var held := at == s.mem.lr;
    LoadSucceeds(s.mem, at, n);
    if Load(s.mem, at, n).Ok? {
      var word := if held then s.regs[i.rs2] else Load(s.mem, at, n).value;
      WordStored(s.mem, at, word, n);
      if StoreWord(s.mem, at, word, n).1.Pass? {
        WrittenWith(s.mem, StoreWord(s.mem, at, word, n).0, at, word, n, UNRESERVED);
        if !held {
          StoredBack(s.mem, at, n);
        }
      }
    }
  }

  lemma LoadSucceeds(m: Mem, at: u64, n: nat)
    requires 0 < n <= 8
    ensures Load(m, at, n).Ok? <==> at + n <= |m.data|
  {
  }

  lemma WrittenWith(m: Mem, m': Mem, at: nat, word: u64, n: nat, lr: u64)
    requires WordWritten(m, m', at, word, n)
    ensures WordWritten(m, m'.(lr := lr), at, word, n)
  {
  }

  /** A reservation is good for one store-conditional: the first to the reserved address stores, an
      immediate second one does not. */
  lemma ReservationIsUsedOnce(load: Inst, first: Inst, second: Inst, s: State, n: nat)
    requires (n == 4 || n == 8) && LoadReserved(load, s, n).err.None?
    requires var t := LoadReserved(load, s, n).st;
             && t.regs[first.rs1] == s.regs[load.rs1] && StoreConditional(first, t, n).err.None?
             && first.rd != 0 && second.rd != 0
             && StoreConditional(second, StoreConditional(first, t, n).st, n).err.None?
             && StoreConditional(first, t, n).st.regs[second.rs1] != UNRESERVED
    ensures var t := LoadReserved(load, s, n).st;
            var u := StoreConditional(first, t, n).st;
            var v := StoreConditional(second, u, n).st;
            && u.regs[first.rd] == 0 && WordWritten(t.mem, u.mem, s.regs[load.rs1], t.regs[first.rs2], n)
            && v.regs[second.rd] == 1 && v.mem.data == u.mem.data
  {
    hide LoadReserved, StoreConditional, WordWritten;
    ReservedLaw(load, s, n);
    var t := LoadReserved(load, s, n).st;
    ConditionalLaw(first, t, n);
    ConditionalLaw(second, StoreConditional(first, t, n).st, n);
  }

  /** A read-modify-write gives `rd` the old word as soon as it is read, and keeps it there even if the
      store then fails. On success the new word, cut to its width, is all that changed in memory; the
      reservation is never touched. */
  lemma UpdateLaw(env: Env, i: Inst, s: State, n: nat)
    requires n == 4 || n == 8
    ensures var o, at := AtomicUpdate(env, i, s, n), s.regs[i.rs1];
            && (o.err.None? <==> Storable(s.mem, at, n))
            && (at + n <= |s.mem.data| ==>
                  OnlyRegister(s.regs, o.st.regs, i.rd, SignExtend(LeWord(s.mem.data[at..at + n]), n)))
            && (at + n > |s.mem.data| ==> o.st.regs == s.regs)
            && (o.err.None? ==>
                  WordWritten(s.mem, o.st.mem, at, env.amo(i, s.regs[i.rs2], LeWord(s.mem.data[at..at + n])), n))
            && (o.err.Some? ==> o.st.mem == s.mem)
            && o.st.mem.lr == s.mem.lr
  {
    hide StoreWord, WordWritten, LeWord, SignExtend;
    var at := s.regs[i.rs1];
    if at + n <= |s.mem.data| {
      var before := LeWord(s.mem.data[at..at + n]);
      assert Load(s.mem, at, n) == Ok(before);
      WordStored(s.mem, at, env.amo(i, s.regs[i.rs2], before), n);
    }
  }
}
