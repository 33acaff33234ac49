/**
 * Blocklist feeds: which listed networks are kept, and that none of them touches reserved or protected space
 * (feeds.rs).
 */
module Feeds {
  import opened Words
  import opened Wrappers
  import opened Cidrs
  import opened RuleKeys
  import opened MapSync
  import opened Sorting
  import opened XdpFilter
  import opened Loader

  predicate Overlaps(a: Cidr, b: Cidr) {
    a.Contains(b.net) || b.Contains(a.net)
  }

  type PrefixLen = x: u32 | x <= 32

  function Quad(a: u8, b: u8, c: u8, d: u8): u32 {
    ((a * 0x100 + b) * 0x100 + c) * 0x100 + d
  }

  /** The space no list may touch. */
  const RESERVED: seq<(u32, PrefixLen)> := [
    (Quad(0, 0, 0, 0), 8), (Quad(10, 0, 0, 0), 8), (Quad(100, 64, 0, 0), 10), (Quad(127, 0, 0, 0), 8),
    (Quad(169, 254, 0, 0), 16), (Quad(172, 16, 0, 0), 12), (Quad(192, 0, 0, 0), 24), (Quad(192, 168, 0, 0), 16),
    (Quad(198, 18, 0, 0), 15), (Quad(224, 0, 0, 0), 4), (Quad(240, 0, 0, 0), 4)]

  function ReservedNet(r: (u32, PrefixLen)): Cidr {
    ParseCidr(CidrText(Some(r.0), Some(Some(r.1)))).value
  }

  function ReservedNets(): (s: seq<Cidr>)
    ensures |s| == |RESERVED|
  {
    seq(|RESERVED|, i requires 0 <= i < |RESERVED| => ReservedNet(RESERVED[i]))
  }

  lemma ReservedIsPrefix(r: (u32, PrefixLen))
    ensures ReservedNet(r).IsPrefix()
  {
    ParsedIsPrefix(CidrText(Some(r.0), Some(Some(r.1))));
  }

  lemma ReservedArePrefixes()
    ensures forall i :: 0 <= i < |ReservedNets()| ==> ReservedNets()[i].IsPrefix()
  {
    forall i | 0 <= i < |ReservedNets()| ensures ReservedNets()[i].IsPrefix() {
      ReservedIsPrefix(RESERVED[i]);
    }
  }

  /**
   * The special-use addresses (RFC 6890): this network, private, shared, loopback, link-local, protocol assignments,
   * benchmarking, multicast, reserved.
   */
  predicate SpecialUse(ip: u32) {
    || ip < 0x0100_0000 || 0x0a00_0000 <= ip < 0x0b00_0000 || 0x6440_0000 <= ip < 0x6480_0000
    || 0x7f00_0000 <= ip < 0x8000_0000 || 0xa9fe_0000 <= ip < 0xa9ff_0000 || 0xac10_0000 <= ip < 0xac20_0000
    || 0xc000_0000 <= ip < 0xc000_0100 || 0xc0a8_0000 <= ip < 0xc0a9_0000 || 0xc612_0000 <= ip < 0xc614_0000
    || 0xe000_0000 <= ip < 0xf000_0000 || 0xf000_0000 <= ip
  }

  lemma ReservedSpan(r: (u32, PrefixLen), span: int, ip: u32)
    requires span == Pow2(32 - r.1) && r.0 % span == 0
    ensures ReservedNet(r).Contains(ip) <==> r.0 <= ip < r.0 + span
  {
    var c := ReservedNet(r);
    ParsedIsPrefix(CidrText(Some(r.0), Some(Some(r.1))));
    assert c.IsPrefix() && c.Bits() == r.1 && c.net == And(r.0, PrefixMask(r.1)) && Span(r.1) == span;
    hide *;
    MaskedIs(r.0, r.1);
    ContainsIsInterval(c, ip);
  }

  /** The length of each reserved network's interval. */
  function ReservedSize(i: nat): nat
    requires i < |RESERVED|
  {
    if i in {0, 1, 3} then 0x100_0000
    else if i in {4, 7} then 0x1_0000
    else if i in {9, 10} then 0x1000_0000
    else if i == 2 then 0x40_0000
    else if i == 5 then 0x10_0000
    else if i == 6 then 0x100
    else 0x2_0000
  }

  lemma ReservedSizes(i: nat)
    requires i < |RESERVED|
    ensures ReservedSize(i) == Pow2(32 - RESERVED[i].1) && RESERVED[i].0 % ReservedSize(i) == 0
  {
    assert Pow2(8) == 0x100;
    assert Pow2(16) == 0x1_0000;
    assert Pow2(20) == 0x10_0000;
    assert Pow2(24) == 0x100_0000;
    assert Pow2(28) == 0x1000_0000;
  }

  lemma ReservedRange(i: nat, ip: u32)
    requires i < |RESERVED|
    ensures ReservedNets()[i].Contains(ip) <==> RESERVED[i].0 <= ip < RESERVED[i].0 + ReservedSize(i)
  {
    ReservedSizes(i);
    ReservedSpan(RESERVED[i], ReservedSize(i), ip);
  }

  lemma SpecialIsRanges(ip: u32)
    ensures SpecialUse(ip) <==> exists i :: 0 <= i < |RESERVED| && InRange(i, ip)
  {
    if SpecialUse(ip) {
      assert InRange(0, ip) || InRange(1, ip) || InRange(2, ip) || InRange(3, ip) || InRange(4, ip) || InRange(5, ip)
        || InRange(6, ip) || InRange(7, ip) || InRange(8, ip) || InRange(9, ip) || InRange(10, ip);
    }
  }

  predicate InRange(i: nat, ip: u32) {
    i < |RESERVED| && RESERVED[i].0 <= ip < RESERVED[i].0 + ReservedSize(i)
  }

  /** The reserved networks hold exactly these. */
  lemma ReservedIff(ip: u32)
    ensures (exists i :: 0 <= i < |ReservedNets()| && ReservedNets()[i].Contains(ip)) <==> SpecialUse(ip)
  {
    SpecialIsRanges(ip);
    hide SpecialUse, ReservedNets, Cidr.Contains;
    forall i: nat | i < |RESERVED| ensures ReservedNets()[i].Contains(ip) <==> InRange(i, ip) {
      ReservedRange(i, ip);
    }
  }

  /** A block contains another's start, or lies apart from it. */
  lemma BlocksNested(a: nat, k: int, b: nat, m: int)
    requires 0 < k <= m && m % k == 0 && a % k == 0 && b % m == 0
    ensures (b <= a && a + k <= b + m) || a + k <= b || b + m <= a
  {
    var q := m / k;
    assert m == q * k;
    var x, y := a / k, b / m;
    assert a == x * k && b == y * m == (y * q) * k;
    assert b + m == (y * q + q) * k by {
      assert (y * q + q) * k == (y * q) * k + q * k;
    }
    BlockCompare(x, y * q, k);
    BlockCompare(x, y * q + q, k);
  }

  lemma BlockCompare(x: int, y: int, k: int)
    requires k > 0
    ensures x < y ==> x * k + k <= y * k
    ensures x >= y ==> x * k >= y * k
  {
    if x < y {
      assert (x + 1) * k <= y * k;
    } else {
      assert (x - y) * k >= 0;
    }
  }

  lemma SpanDivides(a: nat, b: nat)
    requires a <= b <= 32
    ensures Span(b) <= Span(a) && Span(a) % Span(b) == 0
  {
    var k, q := Pow2(32 - b), Pow2(b - a);
    assert Pow2(32 - a) == k * q by {
      Pow2Add(32 - b, b - a);
    }
    Multiple(k, q);
  }

  lemma Multiple(k: nat, q: nat)
    requires k >= 1 && q >= 1
    ensures k <= k * q && (k * q) % k == 0
  {
    DivUnique(k * q, k, q, 0);
  }

  /** For prefix networks the test is exact: they overlap exactly when some address is in both. */
  lemma OverlapsIff(a: Cidr, b: Cidr)
    requires a.IsPrefix() && b.IsPrefix()
    ensures Overlaps(a, b) <==> exists ip: u32 :: a.Contains(ip) && b.Contains(ip)
  {
    ContainsIsInterval(a, a.net);
    ContainsIsInterval(b, b.net);
    ContainsIsInterval(a, b.net);
    ContainsIsInterval(b, a.net);
    if ip: u32 :| a.Contains(ip) && b.Contains(ip) {
      ContainsIsInterval(a, ip);
      ContainsIsInterval(b, ip);
      if a.Bits() <= b.Bits() {
        SpanDivides(a.Bits(), b.Bits());
        BlocksNested(b.net, Span(b.Bits()), a.net, Span(a.Bits()));
      } else {
        SpanDivides(b.Bits(), a.Bits());
        BlocksNested(a.net, Span(a.Bits()), b.net, Span(b.Bits()));
      }
    }
  }

  /**
   * With a protected mask that is not a prefix it is not: 1.0.0.1 under the mask 255.0.0.255 shares 1.0.1.1 with
   * 1.0.1.0/24, and the test does not see it.
   */
  lemma OverlapsNeedsPrefixes()
    ensures var (p, c) := (Cidr(Quad(1, 0, 0, 1), Quad(255, 0, 0, 255)), Cidr(Quad(1, 0, 1, 0), Quad(255, 255, 255,
        0)));
      && c.IsPrefix() && c.Bits() == 24 && And(p.net, p.mask) == p.net
      && !Overlaps(p, c) && p.Contains(Quad(1, 0, 1, 1)) && c.Contains(Quad(1, 0, 1, 1))
  {
    AndFullBytes();
    CandidateIsPrefix();
    hide And, LeadingOnes, PrefixMask, Span;
    AndQuads(1, 0, 0, 1, 255, 0, 0, 255);
    AndQuads(1, 0, 1, 0, 255, 0, 0, 255);
    AndQuads(1, 0, 1, 1, 255, 0, 0, 255);
    AndQuads(1, 0, 0, 1, 255, 255, 255, 0);
    AndQuads(1, 0, 1, 1, 255, 255, 255, 0);
  }

  lemma CandidateIsPrefix()
    ensures var c := Cidr(Quad(1, 0, 1, 0), Quad(255, 255, 255, 0));
      c.IsPrefix() && c.Bits() == 24
  {
    var c := Cidr(Quad(1, 0, 1, 0), Quad(255, 255, 255, 0));
    assert Pow2(8) == 0x100;
    MaskValue(24);
    assert c.Prefixed(24);
    PrefixedIsPrefix(c, 24);
  }

  lemma AndFullBytes()
    ensures And(1, 255) == 1 && And(1, 0) == 0 && And(0, 255) == 0 && And(0, 0) == 0
  {
    assert And(0, 127) == 0;
  }

  lemma AndByte(a: nat, x: u8, b: nat, y: u8)
    ensures And(a * 0x100 + x, b * 0x100 + y) == And(a, b) * 0x100 + And(x, y)
  {
    assert Pow2(8) == 0x100;
    hide And;
    AndSplits(a, x, b, y, 8);
    ShlIs(a, 8);
    ShlIs(b, 8);
    ShlIs(And(a, b), 8);
  }

  /** AND goes byte by byte. */
  lemma AndQuads(a: u8, b: u8, c: u8, d: u8, m: u8, n: u8, o: u8, p: u8)
    ensures And(Quad(a, b, c, d), Quad(m, n, o, p)) ==
            ((And(a, m) * 0x100 + And(b, n)) * 0x100 + And(c, o)) * 0x100 + And(d, p)
  {
    hide And;
    AndByte(a, b, m, n);
    AndByte(a * 0x100 + b, c, m * 0x100 + n, o);
    AndByte((a * 0x100 + b) * 0x100 + c, d, (m * 0x100 + n) * 0x100 + o, p);
  }

  /** A candidate survives: /8 or longer, and apart from all reserved and protected networks by the test. */
  predicate Kept(c: Cidr, protected: seq<Cidr>) {
    c.Bits() >= 8
    && (forall i :: 0 <= i < |ReservedNets()| ==> !Overlaps(ReservedNets()[i], c))
    && (forall i :: 0 <= i < |protected| ==> !Overlaps(protected[i], c))
  }

  ghost predicate Listed(tokens: seq<CidrText>, protected: seq<Cidr>, c: Cidr) {
    Kept(c, protected) && exists i :: 0 <= i < |tokens| && ParseCidr(tokens[i]) == Ok(c)
  }

  function NetKey(c: Cidr): int {
    c.net * 0x1_0000_0000 + c.mask
  }

  lemma NetKeyInjective(s: seq<Cidr>)
    ensures Injective(s, NetKey)
  {
    forall c, d | c in s && d in s && NetKey(c) == NetKey(d) ensures c == d {
      PairUnique(c.net, c.mask, d.net, d.mask, 0x1_0000_0000);
    }
  }

  /** One list, as tokens already split: the networks kept, sorted by address then mask, each once. */
  method Parse(tokens: seq<CidrText>, protected: seq<Cidr>) returns (out: seq<Cidr>)
    ensures StrictlySortedBy(out, NetKey)
    ensures forall c :: c in out <==> Listed(tokens, protected, c)
  {
    var kept: seq<Cidr> := [];
    for i := 0 to |tokens|
      invariant forall c :: c in kept <==> Listed(tokens[..i], protected, c)
    {
      assert tokens[..i + 1] == tokens[..i] + [tokens[i]];
      ListedSnoc(tokens, i, protected);
      var c := ParseCidr(tokens[i]);
      if c.Ok? && Kept(c.value, protected) {
        kept := kept + [c.value];
      }
    }
    assert tokens[..|tokens|] == tokens;
    NetKeyInjective(kept);
    SortDedup(kept, NetKey);
    out := Dedup(Sort(kept, NetKey));
  }

  lemma ListedSnoc(tokens: seq<CidrText>, i: nat, protected: seq<Cidr>)
    requires i < |tokens|
    ensures forall c :: Listed(tokens[..i + 1], protected, c) <==>
      Listed(tokens[..i], protected, c) || (ParseCidr(tokens[i]) == Ok(c) && Kept(c, protected))
  {
    forall c ensures Listed(tokens[..i + 1], protected, c) <==>
      Listed(tokens[..i], protected, c) || (ParseCidr(tokens[i]) == Ok(c) && Kept(c, protected))
    {
      if Listed(tokens[..i], protected, c) {
        var k :| 0 <= k < i && ParseCidr(tokens[..i][k]) == Ok(c);
        assert ParseCidr(tokens[..i + 1][k]) == Ok(c);
      }
      if ParseCidr(tokens[i]) == Ok(c) {
        assert ParseCidr(tokens[..i + 1][i]) == Ok(c);
      }
    }
  }

  /** All the lists together. */
  method Load(lists: seq<seq<CidrText>>, protected: seq<Cidr>) returns (all: seq<Cidr>)
    ensures StrictlySortedBy(all, NetKey)
    ensures forall c :: c in all <==> exists i :: 0 <= i < |lists| && Listed(lists[i], protected, c)
  {
    var nets: seq<Cidr> := [];
    for i := 0 to |lists|
      invariant forall c :: c in nets <==> exists j :: 0 <= j < i && Listed(lists[j], protected, c)
    {
      var more := Parse(lists[i], protected);
      nets := nets + more;
    }
    NetKeyInjective(nets);
    SortDedup(nets, NetKey);
    all := Dedup(Sort(nets, NetKey));
  }

  lemma ListedIsPrefix(tokens: seq<CidrText>, protected: seq<Cidr>, c: Cidr)
    requires Listed(tokens, protected, c)
    ensures c.IsPrefix()
  {
    var i :| 0 <= i < |tokens| && ParseCidr(tokens[i]) == Ok(c);
    ParsedIsPrefix(tokens[i]);
  }

  /** An address is reserved or protected. */
  ghost predicate Spared(protected: seq<Cidr>, ip: u32) {
    || SpecialUse(ip)
    || (exists i :: 0 <= i < |protected| && protected[i].Contains(ip))
  }

  ghost predicate AllPrefixes(nets: seq<Cidr>) {
    forall i :: 0 <= i < |nets| ==> nets[i].IsPrefix()
  }

  /**
   * A candidate network is kept exactly when it is /8 or longer and holds no reserved or protected address; so no
   * such address is ever in a loaded network, and nothing harmless is thrown away.
   */
  lemma KeptIff(c: Cidr, protected: seq<Cidr>)
    requires c.IsPrefix() && AllPrefixes(protected)
    ensures Kept(c, protected) <==> c.Bits() >= 8 && forall ip: u32 :: c.Contains(ip) ==> !Spared(protected, ip)
  {
    ReservedArePrefixes();
    forall ip: u32
      ensures (exists i :: 0 <= i < |ReservedNets()| && ReservedNets()[i].Contains(ip)) <==> SpecialUse(ip)
    {
      ReservedIff(ip);
    }
    forall i | 0 <= i < |ReservedNets()|
      ensures Overlaps(ReservedNets()[i], c) <==> exists ip: u32 :: ReservedNets()[i].Contains(ip) && c.Contains(ip)
    {
      OverlapsIff(ReservedNets()[i], c);
    }
    forall i | 0 <= i < |protected|
      ensures Overlaps(protected[i], c) <==> exists ip: u32 :: protected[i].Contains(ip) && c.Contains(ip)
    {
      OverlapsIff(protected[i], c);
    }
  }

  /** Down to the packet: a feed trie with nodes of these lists only never drops a reserved or protected source. */
  lemma FeedsSpareProtected(all: seq<Cidr>, lists: seq<seq<CidrText>>, protected: seq<Cidr>, trie: set<Node>, ip: u32)
    requires forall c :: c in all <==> exists i :: 0 <= i < |lists| && Listed(lists[i], protected, c)
    requires AllPrefixes(protected) && Spared(protected, ip) && trie <= NodesOf((set c | c in all), FeedNode)
    ensures forall c :: c in all ==> c.IsPrefix()
    ensures !Hits(trie, FEED_BITS, ip)
  {
    forall c | c in all ensures c.IsPrefix() && !c.Contains(ip) {
      var i :| 0 <= i < |lists| && Listed(lists[i], protected, c);
      ListedIsPrefix(lists[i], protected, c);
      KeptIff(c, protected);
    }
    FeedTrieMeansNetworks((set c | c in all), ip);
  }

  /**
   * Over any run of loads, each of whatever lists under whatever protection, complete or not, no source reserved or
   * protected at the last load is dropped.
   */
  lemma LoadsSpareProtected(tries: seq<set<Node>>, wanteds: seq<set<Cidr>>, addeds: seq<set<Cidr>>, all: seq<Cidr>,
                            lists: seq<seq<CidrText>>, protected: seq<Cidr>, ip: u32)
    requires |tries| == |wanteds| == |addeds| + 1 && tries[0] == {} && wanteds[0] == {}
    requires forall i, c :: 0 <= i < |wanteds| && c in wanteds[i] ==> c.IsPrefix()
    requires forall i :: 0 <= i < |addeds| ==> Fed(tries[i], wanteds[i], wanteds[i + 1], addeds[i], tries[i + 1])
    requires wanteds[|addeds|] == set c | c in all
    requires forall c :: c in all <==> exists i :: 0 <= i < |lists| && Listed(lists[i], protected, c)
    requires AllPrefixes(protected) && Spared(protected, ip)
    ensures !Hits(tries[|addeds|], FEED_BITS, ip)
  {
    FedStaysInside(tries, wanteds, addeds);
    FeedsSpareProtected(all, lists, protected, tries[|addeds|], ip);
  }
}
