/** No instruction changes code, so what decodes now decodes the same later. */
module KeepCode {
  import opened Words
  import opened Pages
  import opened CodeFreeze
  import opened Instructions
  import opened Exec
  import opened Decode
  import opened Fusion

  /** System calls leave the code alone. */
  ghost predicate KeepsCode(env: Env) {
    forall k, regs: RegFile, m: Mem, c: u64 ::
      0 <= k < |env.syscalls| && !env.syscalls[k](regs, m, c).Unprocessed? ==>
        SameCode(m, env.syscalls[k](regs, m, c).mem)
  }

  lemma {:induction false} AskKeepsCode(env: Env, k: nat, s: State)
    requires KeepsCode(env) && k <= |env.syscalls|
    ensures !AskSyscalls(env, k, s).Unprocessed? && SameCode(s.mem, AskSyscalls(env, k, s).mem)
    decreases |env.syscalls| - k
  {
    hide SameCode;
    if k < |env.syscalls| {
      AskKeepsCode(env, k + 1, s);
    } else {
      SameCodeSelf(s.mem);
    }
  }

  lemma SameCodeWith(m: Mem, m': Mem, lr: u64)
    requires SameCode(m, m')
    ensures SameCode(m, m'.(lr := lr))
  {
  }

  /** No instruction changes code. */
  lemma ExecuteKeepsCode(env: Env, i: Inst, s: State)
    requires KeepsCode(env)
    ensures SameCode(s.mem, Execute(env, i, s).st.mem)
  {
    if i.op.ECALL? {
      AskKeepsCode(env, 0, s);
    } else if AccessesMemory(i.op) {
      MemoryKeepsCode(env, i, s);
    }
  }

  lemma MemoryKeepsCode(env: Env, i: Inst, s: State)
    requires AccessesMemory(i.op)
    ensures SameCode(s.mem, Execute(env, i, s).st.mem)
  {
    hide Store, CodeKept, Load;
    forall addr: u64, v: u64, n: nat
      ensures SameCode(s.mem, StoreWord(s.mem, addr, v, n).0)
      ensures SameCode(s.mem, StoreWord(s.mem, addr, v, n).0.(lr := 0xFFFF_FFFF_FFFF_FFFF))
    {
      StoreKeepsCode(s.mem, addr, ToLe(v, n));
      SameCodeWith(s.mem, StoreWord(s.mem, addr, v, n).0, 0xFFFF_FFFF_FFFF_FFFF);
    }
    SameCodeSelf(s.mem);
    SameCodeWith(s.mem, s.mem, s.regs[i.rs1]);
  }

  lemma SameCodeSelf(m: Mem)
    ensures SameCode(m, m)
  {
  }

  lemma {:induction false} SameAhead(isa: Isa, m: Mem, m': Mem, pc: u64, n: nat)
    requires SameCode(m, m')
    ensures Ahead(isa, m, pc, n) == Ahead(isa, m', pc, n)
    decreases n
  {
    hide DecodeRaw, SameCode;
    if n > 0 {
      SameDecode(isa, m, m', pc);
      if DecodeRaw(isa, m, pc).Ok? {
        SameAhead(isa, m, m', Plus(pc, DecodeRaw(isa, m, pc).value.len), n - 1);
      }
    }
  }
}
