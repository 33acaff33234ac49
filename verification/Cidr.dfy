/** IPv4 networks: address and mask in host order, with `contains` a bitwise mask test (config.rs). */
module Cidrs {
  import opened Words
  import opened Wrappers

  /** `u32::MAX << (32 - bits)`, or 0 for no bits. */
  function PrefixMask(bits: nat): u32
    requires bits <= 32
  {
    Pow2Values();
    if bits == 0 then 0 else U32_MAX * Pow2(32 - bits) % 0x1_0000_0000
  }

  /** How many addresses a prefix of this length spans. */
  function Span(bits: nat): (r: nat)
    requires bits <= 32
    ensures 1 <= r <= 0x1_0000_0000
  {
    Pow2Values();
    Pow2Monotone(32 - bits, 32);
    Pow2(32 - bits)
  }

  function LeadingOnes(m: u32): (n: nat)
    ensures n <= 32
  {
    LeadingOnesFrom(m, 0)
  }

  function LeadingOnesFrom(m: u32, i: nat): (n: nat)
    requires i <= 32
    ensures i <= n <= 32
    decreases 32 - i
  {
    if i < 32 && m / Pow2(31 - i) % 2 == 1 then LeadingOnesFrom(m, i + 1) else i
  }

  datatype Cidr = Cidr(net: u32, mask: u32) {
    predicate Contains(ip: u32) {
      And(ip, mask) == net
    }

    predicate Prefixed(bits: nat) {
      bits <= 32 && mask == PrefixMask(bits) && net % Span(bits) == 0
    }

    /** A contiguous mask and no host bits: everything the parser makes. */
    predicate IsPrefix() {
      Prefixed(LeadingOnes(mask))
    }

    function Bits(): (n: nat)
      ensures n <= 32
    {
      LeadingOnes(mask)
    }
  }

  function Single(ip: u32): Cidr {
    Cidr(ip, U32_MAX)
  }

  /** `a.b.c.d` or `a.b.c.d/bits` already split; None stands for a piece that is not a number / address. */
  datatype CidrText = CidrText(addr: Option<u32>, prefix: Option<Option<u32>>)

  function ParseCidr(t: CidrText): Result<Cidr> {
    if t.prefix.Some? && t.prefix.value.None? then Err(BadPrefix)
    else
      var bits := if t.prefix.Some? then t.prefix.value.value else 32;
      if bits > 32 then Err(BadPrefix)
      else if t.addr.None? then Err(BadAddress)
      else
        var mask := PrefixMask(bits);
        Ok(Cidr(And(t.addr.value, mask), mask))
  }

  lemma MaskValue(bits: nat)
    requires bits <= 32
    ensures PrefixMask(bits) == 0x1_0000_0000 - Span(bits)
  {
    Pow2Values();
    if bits > 0 {
      var k := Pow2(32 - bits);
      Pow2Monotone(32 - bits, 31);
      Pow2Add(31, 1);
      assert U32_MAX * k == (k - 1) * 0x1_0000_0000 + (0x1_0000_0000 - k);
      DivUnique(U32_MAX * k, 0x1_0000_0000, k - 1, 0x1_0000_0000 - k);
    }
  }

  /** Masking keeps the block an address lies in. */
  lemma MaskedIs(ip: u32, bits: nat)
    requires bits <= 32
    ensures And(ip, PrefixMask(bits)) == ip - ip % Span(bits)
  {
    Pow2Values();
    MaskValue(bits);
    AndHighOnes(ip, 32, 32 - bits);
  }

  /** Digit `i` of the mask, counted from the top, is one exactly below the prefix length. */
  lemma MaskDigit(bits: nat, i: nat)
    requires bits <= 32 && i < 32
    ensures PrefixMask(bits) / Pow2(31 - i) % 2 == if i < bits then 1 else 0
  {
    MaskValue(bits);
    var k, half := Pow2(31 - i), Pow2(i);
    WholeSpace(i);
    if i < bits {
      Pow2Monotone(32 - bits, 31 - i);
      MinusPart(k, 2 * half, Span(bits));
    } else {
      var t := Pow2(i - bits);
      SpanSplits(bits, i);
      MinusMultiple(k, 2 * half, 2 * t);
    }
  }

  lemma WholeSpace(i: nat)
    requires i < 32
    ensures Pow2(31 - i) * (2 * Pow2(i)) == 0x1_0000_0000
  {
    Pow2Values();
    Pow2Add(31 - i, i + 1);
  }

  lemma SpanSplits(bits: nat, i: nat)
    requires bits <= i < 32
    ensures Span(bits) == Pow2(31 - i) * (2 * Pow2(i - bits))
  {
    Pow2Add(31 - i, i - bits + 1);
  }

  lemma MinusPart(k: nat, up: nat, s: nat)
    requires 1 <= s <= k && up >= 1
    ensures (k * up - s) / k == up - 1
  {
    assert k * up - s == (up - 1) * k + (k - s);
    DivUnique(k * up - s, k, up - 1, k - s);
  }

  lemma MinusMultiple(k: nat, up: nat, t: nat)
    requires k >= 1
    ensures (k * up - k * t) / k == up - t
  {
    assert k * up - k * t == (up - t) * k;
    DivUnique(k * up - k * t, k, up - t, 0);
  }

  lemma {:induction false} LeadingOnesOfMask(bits: nat, i: nat)
    requires i <= bits <= 32
    ensures LeadingOnesFrom(PrefixMask(bits), i) == bits
    decreases bits - i
  {
    if i < 32 {
      MaskDigit(bits, i);
      if i < bits {
        LeadingOnesOfMask(bits, i + 1);
      }
    }
  }

  lemma PrefixedIsPrefix(c: Cidr, bits: nat)
    requires c.Prefixed(bits)
    ensures c.IsPrefix() && c.Bits() == bits
  {
    LeadingOnesOfMask(bits, 0);
  }

  /** What the parser accepts is a canonical network of the written length containing the written address. */
  lemma ParsedIsPrefix(t: CidrText)
    requires ParseCidr(t).Ok?
    ensures ParseCidr(t).value.IsPrefix()
    ensures ParseCidr(t).value.Bits() == if t.prefix.Some? then t.prefix.value.value else 32
    ensures ParseCidr(t).value.Contains(t.addr.value)
  {
    var bits := if t.prefix.Some? then t.prefix.value.value else 32;
    var c := ParseCidr(t).value;
    var ip := t.addr.value;
    MaskedIs(ip, bits);
    BlockStart(ip, Span(bits));
    PrefixedIsPrefix(c, bits);
  }

  lemma SingleIsPrefix(ip: u32)
    ensures Single(ip).IsPrefix() && Single(ip).Bits() == 32
    ensures forall x: u32 :: Single(ip).Contains(x) <==> x == ip
  {
    MaskValue(32);
    assert Span(32) == 1;
    PrefixedIsPrefix(Single(ip), 32);
    forall x: u32 ensures Single(ip).Contains(x) <==> x == ip {
      MaskedIs(x, 32);
    }
  }

  lemma BlockStart(x: nat, k: int)
    requires k > 0
    ensures (x - x % k) % k == 0 && (x - x % k) / k == x / k
  {
    DivUnique(x - x % k, k, x / k, 0);
  }

  lemma SameBlock(net: nat, ip: nat, k: int)
    requires k > 0 && net % k == 0
    ensures ip - ip % k == net <==> ip / k == net / k
    ensures ip / k == net / k <==> net <= ip < net + k
  {
    assert net == net / k * k && ip == ip / k * k + ip % k;
    if net <= ip < net + k {
      DivUnique(ip, k, net / k, ip - net);
    }
  }

  /** The mask test, the block number and the address interval are the same thing. */
  lemma ContainsIsInterval(c: Cidr, ip: u32)
    requires c.IsPrefix()
    ensures c.Contains(ip) <==> ip / Span(c.Bits()) == c.net / Span(c.Bits())
    ensures c.Contains(ip) <==> c.net <= ip < c.net + Span(c.Bits())
    ensures Span(c.Bits()) == U32_MAX - c.mask + 1
  {
    MaskedIs(ip, c.Bits());
    MaskValue(c.Bits());
    SameBlock(c.net, ip, Span(c.Bits()));
  }

  /** A network ends inside the address space. */
  lemma NetworkFits(c: Cidr)
    requires c.IsPrefix()
    ensures c.net + Span(c.Bits()) <= 0x1_0000_0000
  {
    Pow2Values();
    Pow2Add(32 - c.Bits(), c.Bits());
    BlockFits(c.net, Span(c.Bits()), Pow2(c.Bits()));
  }

  lemma BlockFits(x: nat, k: nat, m: nat)
    requires k > 0 && x % k == 0 && x < k * m
    ensures x + k <= k * m
  {
    var q := x / k;
    assert x == k * q;
    assert q + 1 <= m ==> k * (q + 1) <= k * m;
    assert q >= m ==> k * q >= k * m;
  }
}
