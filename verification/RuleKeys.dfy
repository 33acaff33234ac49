/** Longest-prefix-match keys: `port ++ IPv4 address`, big-endian, and when a stored prefix matches a looked-up key. */
module RuleKeys {
  import opened Words
  import opened Cidrs

  const RULE_BITS: nat := 48
  const FEED_BITS: nat := 32

  datatype RuleKey = RuleKey(p0: u8, p1: u8, a0: u8, a1: u8, a2: u8, a3: u8)

  /** `port.to_be_bytes()` followed by `addr.to_be_bytes()`. */
  function KeyOf(port: u16, addr: u32): RuleKey {
    RuleKey(port / 0x100, port % 0x100,
            addr / 0x100_0000, addr / 0x1_0000 % 0x100, addr / 0x100 % 0x100, addr % 0x100)
  }

  /** The six bytes as one 48-bit string. */
  function Word(k: RuleKey): nat {
    ((((k.p0 * 0x100 + k.p1) * 0x100 + k.a0) * 0x100 + k.a1) * 0x100 + k.a2) * 0x100 + k.a3
  }

  /** The leading `len` bits of a `width`-bit string. */
  function Lead(width: nat, len: nat, word: nat): int
    requires len <= width
  {
    word / Pow2(width - len)
  }

  /** What an entry (prefix length, data) of a 48-bit trie matches. */
  predicate RuleMatches(len: nat, data: RuleKey, key: RuleKey) {
    len <= RULE_BITS && Lead(RULE_BITS, len, Word(data)) == Lead(RULE_BITS, len, Word(key))
  }

  /** The entry compiled for a port and a network. */
  function RuleEntry(port: u16, net: Cidr): (nat, RuleKey) {
    (16 + net.Bits(), KeyOf(port, net.net))
  }

  lemma WordOfKey(port: u16, addr: u32)
    ensures Word(KeyOf(port, addr)) == port * 0x1_0000_0000 + addr
  {
    assert addr / 0x100_0000 * 0x100 + addr / 0x1_0000 % 0x100 == addr / 0x1_0000;
    assert addr / 0x1_0000 * 0x100 + addr / 0x100 % 0x100 == addr / 0x100;
    assert addr / 0x100 * 0x100 + addr % 0x100 == addr;
    assert port / 0x100 * 0x100 + port % 0x100 == port;
  }

  lemma LeadSplits(port: nat, addr: nat, k: int, m: int)
    requires k > 0 && k * m == 0x1_0000_0000
    requires addr < 0x1_0000_0000
    ensures (port * 0x1_0000_0000 + addr) / k == port * m + addr / k
    ensures 0 <= addr / k < m
  {
    var a, r := addr / k, addr % k;
    DivShrinks(addr, k);
    assert addr == a * k + r;
    if a >= m {
      MulOrder(m, a, k);
    }
    Regrouped(port, k, m, a);
    DivUnique(port * 0x1_0000_0000 + addr, k, port * m + a, r);
  }

  lemma Regrouped(p: int, k: int, m: int, a: int)
    ensures (p * m + a) * k == p * (k * m) + a * k
  {
    assert p * m * k == p * (m * k);
  }

  lemma PairUnique(p: nat, a: nat, q: nat, b: nat, m: int)
    requires a < m && b < m && p * m + a == q * m + b
    ensures p == q && a == b
  {
    DivUnique(p * m + a, m, p, a);
    DivUnique(q * m + b, m, q, b);
  }

  lemma LeadOfWord(word: nat, port: u16, addr: u32, bits: nat)
    requires bits <= 32 && word == port * 0x1_0000_0000 + addr
    ensures Lead(RULE_BITS, 16 + bits, word) == port * Pow2(bits) + addr / Span(bits)
    ensures 0 <= addr / Span(bits) < Pow2(bits)
  {
    assert Pow2(32 - bits) * Pow2(bits) == 0x1_0000_0000 by {
      Pow2Values();
      Pow2Add(32 - bits, bits);
    }
    var k := Pow2(32 - bits);
    LeadSplits(port, addr, k, Pow2(bits));
    assert Span(bits) == k;
    assert Lead(RULE_BITS, 16 + bits, word) == word / k;
  }

  lemma LeadOfKey(port: u16, addr: u32, bits: nat)
    requires bits <= 32
    ensures Lead(RULE_BITS, 16 + bits, Word(KeyOf(port, addr))) == port * Pow2(bits) + addr / Span(bits)
    ensures 0 <= addr / Span(bits) < Pow2(bits)
  {
    WordOfKey(port, addr);
    LeadOfWord(port * 0x1_0000_0000 + addr, port, addr, bits);
  }

  /** The 48-bit prefix match holds exactly when the port is the same and the network contains the address. */
  lemma RuleMatchIsContains(port: u16, net: Cidr, dst: u16, ip: u32)
    requires net.IsPrefix()
    ensures var e := RuleEntry(port, net);
      RuleMatches(e.0, e.1, KeyOf(dst, ip)) <==> port == dst && net.Contains(ip)
  {
    var bits := net.Bits();
    LeadOfKey(port, net.net, bits);
    LeadOfKey(dst, ip, bits);
    ContainsIsInterval(net, ip);
    if port * Pow2(bits) + net.net / Span(bits) == dst * Pow2(bits) + ip / Span(bits) {
      PairUnique(port, net.net / Span(bits), dst, ip / Span(bits), Pow2(bits));
    }
  }

  /** Entries of one length with the same leading bits are the same entry. */
  lemma RuleEntryLeadInjective(port: u16, net: Cidr, port': u16, net': Cidr)
    requires net.IsPrefix() && net'.IsPrefix() && net.Bits() == net'.Bits()
    requires var (e, e') := (RuleEntry(port, net), RuleEntry(port', net'));
      Lead(RULE_BITS, e.0, Word(e.1)) == Lead(RULE_BITS, e'.0, Word(e'.1))
    ensures port == port' && net.net == net'.net
  {
    var bits := net.Bits();
    LeadOfKey(port, net.net, bits);
    LeadOfKey(port', net'.net, bits);
    PairUnique(port, net.net / Span(bits), port', net'.net / Span(bits), Pow2(bits));
    ContainsIsInterval(net, net'.net);
    ContainsIsInterval(net', net.net);
  }
}
