/** Facts about the paged memory that several backends and proofs share. */
module PageLemmas {
  import opened Words
  import opened Outcomes
  import opened Pages

  /** Two adjacent writes are one. */
  lemma PutSplit(m: Mem, addr: nat, x: seq<byte>, y: seq<byte>)
    requires addr + |x| + |y| <= |m.data|
    ensures Put(Put(m, addr, x), addr + |x|, y) == Put(m, addr, x + y)
  {
    var two, one := Put(Put(m, addr, x), addr + |x|, y), Put(m, addr, x + y);
    forall p | 0 <= p < |m.flags|
      ensures two.flags[p] == one.flags[p]
    {
      TouchesSplit(addr, |x|, |y|, p);
    }
    assert two.flags == one.flags;
    assert two.data == one.data;
  }

  lemma TouchesSplit(addr: nat, a: nat, b: nat, p: nat)
    ensures Touches(addr, a + b, p) <==> Touches(addr, a, p) || Touches(addr + a, b, p)
  {
  }

  lemma Adjacent(s: seq<byte>, a: nat, b: nat, c: nat)
    requires a <= b <= c <= |s|
    ensures s[a..b] + s[b..c] == s[a..c]
  {
  }

  lemma TouchesAligned(first: nat, end: nat, p: nat)
    requires first <= end
    ensures Touches(4096 * first, 4096 * (end - first), p) <==> first <= p < end
  {
  }

  lemma AddFlagsStep(m: Mem, first: nat, page: u64, flags: PageFlags)
    requires first <= page < |m.flags|
    ensures SetFlag(AddFlags(m, first, page, flags), page, flags) == (AddFlags(m, first, page + 1, flags), Pass)
  {
    assert SetFlag(AddFlags(m, first, page, flags), page, flags).0.flags == AddFlags(m, first, page + 1, flags).flags;
  }

  lemma AddNoFlags(m: Mem, first: nat, flags: PageFlags)
    ensures AddFlags(m, first, first, flags) == m
  {
    assert AddFlags(m, first, first, flags).flags == m.flags;
  }

  lemma LowBits(k: int, r: nat)
    requires r < 4096
    ensures (4096 * k + r) % 4096 == r
  {
  }

  lemma Negated(x: u64)
    ensures Wrap(0 - x) == if x == 0 then 0 else 0x1_0000_0000_0000_0000 - x
  {
  }

  /** `RoundUp` is the source's bit expression `x + ((!x + 1) & 4095)`. */
  lemma RoundUpBits(x: u64)
    ensures RoundUp(x) == Wrap(x + Wrap(0 - x) % 4096)
  {
    hide Wrap;
    var q, r := x / 4096, x % 4096;
    Negated(x);
    if r == 0 {
      LowBits(0x10_0000_0000_0000 - q, 0);
    } else {
      LowBits(0x10_0000_0000_0000 - q - 1, 4096 - r);
    }
  }

  lemma PutNothing(m: Mem, addr: nat)
    requires addr <= |m.data|
    ensures Put(m, addr, []) == m
  {
    assert Put(m, addr, []).data == m.data;
    assert Put(m, addr, []).flags == m.flags;
  }

  lemma {:induction false} FromLeSnoc(s: seq<byte>, b: byte)
    ensures FromLe(s + [b]) == FromLe(s) + b * Pow256(|s|)
  {
    if s == [] {
      assert s + [b] == [b];
    } else {
      assert (s + [b])[1..] == s[1..] + [b];
      FromLeSnoc(s[1..], b);
      Pow256Step(|s| - 1);
      MulAssoc(b, Pow256(|s| - 1));
    }
  }

  lemma MulAssoc(b: int, x: int)
    ensures 256 * (b * x) == b * (256 * x)
  {
  }

  /** A failing permission check names the first page of the range that is wrong or does not exist. */
  lemma {:induction false} FirstWrongPage(m: Mem, lo: u64, hi: nat, exec: bool, p: nat)
    requires lo <= p <= hi < 0x10_0000_0000_0000 && p <= |m.flags|
    requires forall q :: lo <= q < p ==> m.flags[q].executable == exec
    requires p < |m.flags| ==> m.flags[p].executable != exec
    ensures CheckPermission(m, lo, hi, exec)
         == Fail(if p < |m.flags| then MemWriteOnExecutablePage(p) else MemOutOfBound(Wrap(4096 * p), Memory))
    decreases p - lo
  {
    if lo < p {
      FirstWrongPage(m, lo + 1, hi, exec, p);
    }
  }
}
