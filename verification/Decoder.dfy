/** `DefaultDecoder`: the instruction cache in place, and the fusion rules reading ahead through it. */
module Decoder {
  import opened Words
  import opened Outcomes
  import opened Pages
  import opened Instructions
  import opened D = Decode
  import Fusion

  class DefaultDecoder {
    const isa: Isa
    const mop: bool
    const instructionsCache: array<Entry>

    ghost predicate Valid() {
      instructionsCache.Length == 4096
    }

    ghost function Entries(): Cache
      reads instructionsCache
      requires Valid()
    {
      instructionsCache[..]
    }

    /** Every filled slot agrees with memory `m`. */
    ghost predicate Trusts(m: Mem)
      reads instructionsCache
      requires Valid()
    {
      Trusted(isa, Entries(), m)
    }

    constructor (isa: Isa, mop: bool)
      ensures Valid() && this.isa == isa && this.mop == mop && fresh(instructionsCache)
      ensures Entries() == EmptyCache()
      ensures forall m: Mem :: Trusts(m)
    {
      this.isa := isa;
      this.mop := mop;
      this.instructionsCache := new Entry[4096](_ => FILLER);
    }

    method ResetInstructionsCache()
      requires Valid()
      modifies instructionsCache
      ensures Entries() == EmptyCache()
      ensures forall m: Mem :: Trusts(m)
    {
      forall k | 0 <= k < 4096 {
        instructionsCache[k] := FILLER;
      }
    }

    method DecodeBits(m: Mem, pc: u64) returns (r: Result<nat>)
      ensures r == FetchBits(m, pc)
    {
      if pc % 4096 < 4094 {
        var bits := ExecuteLoad(m, pc, 4);
        if bits.Err? {
          return Err(bits.error);
        }
        return Ok(if bits.value % 4 != 3 then bits.value % 0x1_0000 else bits.value);
      }
      var low := ExecuteLoad(m, pc, 2);
      if low.Err? {
        return Err(low.error);
      }
      var bits: nat := low.value;
      if bits % 4 == 3 {
        var high := ExecuteLoad(m, Plus(pc, 2), 2);
        if high.Err? {
          return Err(high.error);
        }
        bits := bits + 0x1_0000 * high.value;
      }
      return Ok(bits);
    }

    method DecodeRaw(m: Mem, pc: u64) returns (r: Result<Inst>)
      requires Valid()
      modifies instructionsCache
      ensures (r, Entries()) == DecodeCached(isa, old(Entries()), m, pc)
      ensures old(Trusts(m)) ==> r == D.DecodeRaw(isa, m, pc) && Trusts(m)
    {
      if pc >= |m.data| {
        return Err(MemOutOfBound(pc, Memory));
      }
      var slot := Slot(pc);
      var cached := instructionsCache[slot];
      if cached.key == pc {
        return Ok(cached.inst);
      }
      var bits := DecodeBits(m, pc);
      if bits.Err? {
        return Err(bits.error);
      }
      for k := 0 to |isa.factories|
        invariant Entries() == old(Entries())
        invariant FirstMatch(isa, 0, bits.value) == FirstMatch(isa, k, bits.value)
      {
        var i := isa.factories[k](bits.value, isa.version);
        if i.Some? {
          instructionsCache[slot] := Entry(pc, i.value);
          return Ok(i.value);
        }
      }
      return Err(InvalidInstruction(pc, bits.value));
    }

    /** What the decoder sees from `pc` on. */
    ghost function Window(m: Mem, pc: u64): seq<Inst> {
      Fusion.Ahead(isa, m, pc, 5)
    }

    lemma WindowFrom(m: Mem, pc: u64, n: nat)
      requires n > 0 && D.DecodeRaw(isa, m, pc).Ok?
      ensures var i := D.DecodeRaw(isa, m, pc).value;
              Fusion.Ahead(isa, m, pc, n) == [i] + Fusion.Ahead(isa, m, Plus(pc, i.len), n - 1)
    {
    }

    method RuleAdc(m: Mem, pc: u64, head: Inst) returns (r: Option<Inst>)
      requires Valid() && Trusts(m) && D.DecodeRaw(isa, m, pc) == Ok(head) && head.op.ADD?
      modifies instructionsCache
      ensures Trusts(m) && r == Fusion.RuleAdc(Window(m, pc))
    {
      hide D.DecodeRaw, Trusted, DecodeCached;
      WindowFrom(m, pc, 5);
      if head.rd != head.rs1 || head.rs1 == head.rs2 {
        return None;
      }
      var pc1 := Plus(pc, head.len);
      var d1 := DecodeRaw(m, pc1);
      if d1.Err? || !d1.value.op.SLTU? {
        return None;
      }
      var next := d1.value;
      WindowFrom(m, pc1, 4);
      if next.rd != head.rs2 || head.rs2 != next.rs2 || next.rs1 != head.rs1 {
        return None;
      }
      var pc2 := Plus(pc1, next.len);
      var d2 := DecodeRaw(m, pc2);
      if d2.Err? || !d2.value.op.ADD? {
        return None;
      }
      var neck := d2.value;
      WindowFrom(m, pc2, 3);
      if neck.rd != neck.rs1 || neck.rs1 != next.rs1 || neck.rs2 == head.rs1 || neck.rs2 == head.rs2 {
        return None;
      }
      var pc3 := Plus(pc2, neck.len);
      var d3 := DecodeRaw(m, pc3);
      if d3.Err? || !d3.value.op.SLTU? {
        return None;
      }
      var body := d3.value;
      WindowFrom(m, pc3, 2);
      if body.rd != body.rs2 || body.rs2 != neck.rs2 || body.rs1 != neck.rs1 {
        return None;
      }
      var pc4 := Plus(pc3, body.len);
      var d4 := DecodeRaw(m, pc4);
      if d4.Err? || !d4.value.op.OR? {
        return None;
      }
      var tail := d4.value;
      WindowFrom(m, pc4, 1);
      if tail.rd != tail.rs1 || tail.rs1 != head.rs2 || tail.rs2 != body.rs2 {
        return None;
      }
      if head.rd == ZERO || next.rd == ZERO || body.rd == ZERO {
        return None;
      }
      return Some(RType(ADC, head.rd, next.rd, body.rd, head.len + next.len + neck.len + body.len + tail.len));
    }

    method RuleAdd3(m: Mem, pc: u64, i0: Inst) returns (r: Option<Inst>)
      requires Valid() && Trusts(m) && D.DecodeRaw(isa, m, pc) == Ok(i0) && i0.op.ADD?
      modifies instructionsCache
      ensures Trusts(m) && r == Fusion.RuleAdd3(Window(m, pc), isa.version)
    {
      hide D.DecodeRaw, Trusted, DecodeCached;
      WindowFrom(m, pc, 5);
      if isa.version < 2 {
        return None;
      }
      var pc1 := Plus(pc, i0.len);
      var d1 := DecodeRaw(m, pc1);
      if d1.Err? || !d1.value.op.SLTU? {
        return None;
      }
      var i1 := d1.value;
      WindowFrom(m, pc1, 4);
      var pc2 := Plus(pc1, i1.len);
      var d2 := DecodeRaw(m, pc2);
      if d2.Err? || !d2.value.op.ADD? {
        return None;
      }
      var i2 := d2.value;
      WindowFrom(m, pc2, 3);
      var len := i0.len + i1.len + i2.len;
      var r0, r1, r4 := i0.rd, i0.rs1, i2.rs2;
      if && i0.rs2 == r0 && i1.rs1 == r0 && i1.rs2 == r1 && i2.rs1 == i1.rd
         && r0 != r1 && r0 != r4 && i1.rd != r4 && r0 != ZERO && i1.rd != ZERO {
        return Some(R5Type(ADD3A, r0, r1, i1.rd, i2.rd, r4, len));
      }
      if && i1.rd == r1 && i1.rs1 == r0 && i1.rs2 == r1 && i2.rs1 == r1
         && r0 != r1 && r0 != r4 && r1 != r4 && r0 != ZERO && r1 != ZERO {
        return Some(R5Type(ADD3B, r0, r1, i0.rs2, i2.rd, r4, len));
      }
      if && i1.rs1 == r0 && i1.rs2 == r1 && i2.rd == i1.rd && i2.rs1 == i1.rd
         && r0 != r1 && r0 != r4 && i1.rd != r4 && r0 != ZERO && i1.rd != ZERO {
        return Some(R5Type(ADD3C, r0, r1, i0.rs2, i1.rd, r4, len));
      }
      return None;
    }

    method RuleAdcs(m: Mem, pc: u64, head: Inst) returns (r: Option<Inst>)
      requires Valid() && Trusts(m) && D.DecodeRaw(isa, m, pc) == Ok(head) && head.op.ADD?
      modifies instructionsCache
      ensures Trusts(m) && r == Fusion.RuleAdcs(Window(m, pc), isa.version)
    {
      hide D.DecodeRaw, Trusted, DecodeCached;
      WindowFrom(m, pc, 5);
      if isa.version < 2 {
        return None;
      }
      var i0 := head;
      if i0.rd == i0.rs1 && i0.rd != i0.rs2 {
        i0 := i0.(rs1 := i0.rs2, rs2 := i0.rs1);
      }
      var pc1 := Plus(pc, head.len);
      var d1 := DecodeRaw(m, pc1);
      if d1.Err? || !d1.value.op.SLTU? {
        return None;
      }
      var i1 := d1.value;
      WindowFrom(m, pc1, 4);
      if i1.rs1 == i0.rd && i1.rs2 == i0.rs1 && i0.rd != i0.rs1 && i0.rd != ZERO {
        return Some(R4Type(ADCS, i0.rd, i0.rs1, i0.rs2, i1.rd, i0.len + i1.len));
      }
      return None;
    }

    method RuleSbb(m: Mem, pc: u64, head: Inst) returns (r: Option<Inst>)
      requires Valid() && Trusts(m) && D.DecodeRaw(isa, m, pc) == Ok(head) && head.op.SUB?
      modifies instructionsCache
      ensures Trusts(m) && r == Fusion.RuleSbb(Window(m, pc))
    {
      hide D.DecodeRaw, Trusted, DecodeCached;
      WindowFrom(m, pc, 5);
      if head.rd != head.rs2 || head.rs1 == head.rs2 {
        return None;
      }
      var pc1 := Plus(pc, head.len);
      var d1 := DecodeRaw(m, pc1);
      if d1.Err? || !d1.value.op.SLTU? {
        return None;
      }
      var next := d1.value;
      WindowFrom(m, pc1, 4);
      if next.rd == head.rs1 || next.rd == head.rs2 || next.rs1 != head.rs1 || next.rs2 != next.rs2 {
        return None;
      }
      var pc2 := Plus(pc1, next.len);
      var d2 := DecodeRaw(m, pc2);
      if d2.Err? || !d2.value.op.SUB? {
        return None;
      }
      var neck := d2.value;
      WindowFrom(m, pc2, 3);
      if neck.rd != head.rs1 || neck.rs1 != head.rs2 || neck.rs2 == head.rs1 || neck.rs2 == head.rs2 ||
         neck.rs2 == next.rd {
        return None;
      }
      var pc3 := Plus(pc2, neck.len);
      var d3 := DecodeRaw(m, pc3);
      if d3.Err? || !d3.value.op.SLTU? {
        return None;
      }
      var body := d3.value;
      WindowFrom(m, pc3, 2);
      if body.rd != neck.rs2 || body.rs1 != head.rs2 || body.rs2 != head.rs1 {
        return None;
      }
      var pc4 := Plus(pc3, body.len);
      var d4 := DecodeRaw(m, pc4);
      if d4.Err? || !d4.value.op.OR? {
        return None;
      }
      var tail := d4.value;
      WindowFrom(m, pc4, 1);
      if tail.rd != head.rd || tail.rs1 != neck.rs2 || tail.rs2 != next.rd {
        return None;
      }
      if head.rs1 == ZERO || head.rs2 == ZERO || neck.rs2 == ZERO || next.rd == ZERO {
        return None;
      }
      return Some(R4Type(SBB, head.rs1, head.rs2, neck.rs2, next.rd,
                         head.len + next.len + neck.len + body.len + tail.len));
    }

    method RuleSbbs(m: Mem, pc: u64, head: Inst) returns (r: Option<Inst>)
      requires Valid() && Trusts(m) && D.DecodeRaw(isa, m, pc) == Ok(head) && head.op.SUB?
      modifies instructionsCache
      ensures Trusts(m) && r == Fusion.RuleSbbs(Window(m, pc), isa.version)
    {
      hide D.DecodeRaw, Trusted, DecodeCached;
      WindowFrom(m, pc, 5);
      if isa.version < 2 {
        return None;
      }
      var pc1 := Plus(pc, head.len);
      var d1 := DecodeRaw(m, pc1);
      if d1.Err? {
        return None;
      }
      var next := d1.value;
      WindowFrom(m, pc1, 4);
      if next.op.SLTU? && next.rs1 == head.rs1 && next.rs2 == head.rs2
         && head.rd != head.rs1 && head.rd != head.rs2 {
        return Some(R4Type(SBBS, head.rd, head.rs1, head.rs2, next.rd, head.len + next.len));
      }
      return None;
    }

    method RuleLui(m: Mem, pc: u64, head: Inst) returns (r: Option<Inst>)
      requires Valid() && Trusts(m) && D.DecodeRaw(isa, m, pc) == Ok(head) && head.op.LUI?
      modifies instructionsCache
      ensures Trusts(m) && r == Fusion.RuleLui(Window(m, pc), isa.version)
    {
      hide D.DecodeRaw, Trusted, DecodeCached;
      WindowFrom(m, pc, 5);
      var pc1 := Plus(pc, head.len);
      var d1 := DecodeRaw(m, pc1);
      if d1.Err? {
        return None;
      }
      var next := d1.value;
      WindowFrom(m, pc1, 4);
      if next.op.JALR? && next.rs1 == head.rd && next.rd == RA && (isa.version < 2 || next.rs1 == RA) {
        return Some(UType(FAR_JUMP_ABS, RA, WrapI32(head.imm + next.imm), head.len + next.len));
      }
      if next.op.ADDIW? && next.rs1 == next.rd && next.rd == head.rd {
        return Some(UType(CUSTOM_LOAD_IMM, head.rd, WrapI32(head.imm + next.imm), head.len + next.len));
      }
      return None;
    }

    method RuleAuipc(m: Mem, pc: u64, head: Inst) returns (r: Option<Inst>)
      requires Valid() && Trusts(m) && D.DecodeRaw(isa, m, pc) == Ok(head) && head.op.AUIPC?
      modifies instructionsCache
      ensures Trusts(m) && r == Fusion.RuleAuipc(Window(m, pc), pc, isa.version)
    {
      hide D.DecodeRaw, Trusted, DecodeCached;
      WindowFrom(m, pc, 5);
      var pc1 := Plus(pc, head.len);
      var d1 := DecodeRaw(m, pc1);
      if d1.Err? {
        return None;
      }
      var next := d1.value;
      WindowFrom(m, pc1, 4);
      var sum: int, len := head.imm + next.imm, head.len + next.len;
      if next.op.JALR? && next.rs1 == head.rd && next.rd == RA {
        if isa.version < 2 {
          return Some(UType(FAR_JUMP_REL, RA, WrapI32(sum), len));
        }
        if next.rs1 == RA && FitsI32(sum) {
          return Some(UType(FAR_JUMP_REL, RA, sum, len));
        }
      }
      if next.op.ADDI? && isa.version >= 2 && next.rs1 == next.rd && next.rd == head.rd
         && pc < 0x8000_0000 && FitsI32(sum) && FitsI32(sum + pc) {
        return Some(UType(CUSTOM_LOAD_IMM, head.rd, sum + pc, len));
      }
      return None;
    }

    /** A high multiplication or a division, and the instruction that completes it. */
    method RuleWide(m: Mem, pc: u64, head: Inst) returns (r: Option<Inst>)
      requires Valid() && Trusts(m) && D.DecodeRaw(isa, m, pc) == Ok(head) && Fusion.WidePair(head.op).Some?
      modifies instructionsCache
      ensures Trusts(m) && r == Fusion.RuleWide(Window(m, pc))
    {
      hide D.DecodeRaw, Trusted, DecodeCached;
      WindowFrom(m, pc, 5);
      var pc1 := Plus(pc, head.len);
      var d1 := DecodeRaw(m, pc1);
      if d1.Err? {
        return None;
      }
      var next := d1.value;
      WindowFrom(m, pc1, 4);
      var (second, fused) := Fusion.WidePair(head.op).value;
      if next.op == second && head.rd != head.rs1 && head.rd != head.rs2
         && head.rs1 == next.rs1 && head.rs2 == next.rs2 && head.rd != next.rd {
        return Some(R4Type(fused, head.rd, head.rs1, head.rs2, next.rd, head.len + next.len));
      }
      return None;
    }

    method DecodeMop(m: Mem, pc: u64) returns (r: Result<Inst>)
      requires Valid() && Trusts(m)
      modifies instructionsCache
      ensures Trusts(m) && r == Fusion.DecodeMop(isa, m, pc)
    {
      hide D.DecodeRaw, Trusted, DecodeCached, Fusion.RuleAdc, Fusion.RuleAdd3, Fusion.RuleAdcs, Fusion.RuleSbb,
        Fusion.RuleSbbs, Fusion.RuleLui, Fusion.RuleAuipc;
      r := DecodeRaw(m, pc);
      if r.Err? {
        return;
      }
      var head := r.value;
      WindowFrom(m, pc, 5);
      var fused: Option<Inst>;
      if head.op.ADD? {
        fused := RuleAdc(m, pc, head);
        if fused.None? {
          fused := RuleAdd3(m, pc, head);
        }
        if fused.None? {
          fused := RuleAdcs(m, pc, head);
        }
      } else if head.op.SUB? {
        fused := RuleSbb(m, pc, head);
        if fused.None? {
          fused := RuleSbbs(m, pc, head);
        }
      } else if head.op.LUI? {
        fused := RuleLui(m, pc, head);
      } else if head.op.AUIPC? {
        fused := RuleAuipc(m, pc, head);
      } else if Fusion.WidePair(head.op).Some? {
        fused := RuleWide(m, pc, head);
      } else {
        fused := None;
        assert Fusion.RuleWide(Window(m, pc)).None?;
      }
      if fused.Some? {
        r := Ok(fused.value);
      }
    }

    /** `decode`: the answer does not depend on what the cache held. */
    method Decode(m: Mem, pc: u64) returns (r: Result<Inst>)
      requires Valid() && Trusts(m)
      modifies instructionsCache
      ensures Trusts(m) && r == Fusion.DecodeAny(isa, mop, m, pc)
    {
      if mop {
        r := DecodeMop(m, pc);
      } else {
        r := DecodeRaw(m, pc);
      }
    }
  }
}
