/** A valid policy that does not fit the kernel's tries, and what applying it leaves behind (daemon.rs `sync_trie`). */
module Overflow {
  import opened Words
  import opened Wrappers
  import opened Collections
  import opened Common
  import opened Cidrs
  import opened Configuration
  import opened RuleKeys
  import opened Compiler
  import opened MapSync
  import opened XdpFilter
  import opened Loader

  function EntriesFor(lo: int, hi: int, net: Cidr): set<(nat, RuleKey)> {
    set p: u16 | lo <= p <= hi :: RuleEntry(p, net)
  }

  lemma SameEntry(p: u16, q: u16, net: Cidr)
    ensures RuleEntry(p, net) == RuleEntry(q, net) <==> p == q
  {
  }

  /** A restricted range takes one trie entry a port. */
  lemma {:induction false} EntriesCount(lo: u16, hi: int, net: Cidr)
    requires lo - 1 <= hi < 0x1_0000
    ensures |EntriesFor(lo, hi, net)| == hi - lo + 1
    decreases hi - lo
  {
    if hi < lo {
      assert EntriesFor(lo, hi, net) == {};
    } else {
      EntriesCount(lo, hi - 1, net);
      forall p: u16 | lo <= p < hi ensures RuleEntry(p, net) != RuleEntry(hi, net) {
        SameEntry(p, hi, net);
      }
      assert EntriesFor(lo, hi, net) == EntriesFor(lo, hi - 1, net) + {RuleEntry(hi, net)};
    }
  }

  /** Ports 1 to 4096 and port 5000, all restricted to one network. */
  function CrowdedPolicy(from: CidrText): Policy {
    Policy(None, [], [], true, [
      Rule("tcp", Text(Some((1, 4096))), Some(from), None),
      Rule("tcp", One(5000), Some(from), None)])
  }

  lemma CrowdedIsValid(from: CidrText)
    requires ParseCidr(from).Ok?
    ensures CrowdedPolicy(from).Valid() && CrowdedPolicy(from).Compiles()
  {
    var rules := CrowdedPolicy(from).rules;
    assert rules[0].Valid() && rules[1].Valid();
  }

  lemma CrowdedEntry(from: CidrText, p: u16, k: nat)
    requires ParseCidr(from).Ok? && k < 2 && (if k == 0 then 1 <= p <= 4096 else p == 5000)
    ensures Restricted(CrowdedPolicy(from).rules, 2, 0, true, RuleEntry(p, ParseCidr(from).value))
  {
    assert Done(CrowdedPolicy(from).rules, 2, 0, k, p);
  }

  /** Validation does not count trie entries: this policy is valid and compiles, but never fits the kernel's trie. */
  lemma ValidCanOverflow(from: CidrText, c: Compiled)
    requires ParseCidr(from).Ok? && CompiledFor(CrowdedPolicy(from), c)
    ensures CrowdedPolicy(from).Valid() && CrowdedPolicy(from).Compiles() && |c.fromTcp| > RULE_ENTRIES
  {
    CrowdedIsValid(from);
    var net := ParseCidr(from).value;
    var last := RuleEntry(5000, net);
    forall p: u16 | 1 <= p <= 4096 ensures RuleEntry(p, net) in c.fromTcp && RuleEntry(p, net) != last {
      CrowdedEntry(from, p, 0);
      SameEntry(p, 5000, net);
    }
    CrowdedEntry(from, 5000, 1);
    EntriesCount(1, 4096, net);
    SubsetCard(EntriesFor(1, 4096, net) + {last}, c.fromTcp);
  }

  predicate Crowded(p: u16) {
    1 <= p <= 4096 || p == 5000
  }

  lemma OnlyCrowded(from: CidrText, e: (nat, RuleKey))
    requires ParseCidr(from).Ok? && Restricted(CrowdedPolicy(from).rules, 2, 0, true, e)
    ensures e in EntriesFor(1, 4096, ParseCidr(from).value) + {RuleEntry(5000, ParseCidr(from).value)}
  {
    var rules := CrowdedPolicy(from).rules;
    var k, p: u16 :| Done(rules, 2, 0, k, p) && rules[k].from.Some? && e == RuleEntry(p, Net(rules[k]));
    assert k == 0 || k == 1;
  }

  lemma NoneForUdp(from: CidrText, e: (nat, RuleKey))
    ensures !Restricted(CrowdedPolicy(from).rules, 2, 0, false, e)
  {
  }

  lemma CrowdedEntries(from: CidrText, c: Compiled)
    requires ParseCidr(from).Ok? && CompiledFor(CrowdedPolicy(from), c)
    ensures forall p: u16 :: Crowded(p) ==> RuleEntry(p, ParseCidr(from).value) in c.fromTcp
    ensures |c.fromTcp| == 4097 && c.fromUdp == {}
  {
    var net := ParseCidr(from).value;
    var last := RuleEntry(5000, net);
    forall p: u16 | Crowded(p) ensures RuleEntry(p, net) in c.fromTcp {
      CrowdedEntry(from, p, if p == 5000 then 1 else 0);
    }
    forall e ensures e in c.fromTcp ==> e in EntriesFor(1, 4096, net) + {last} {
      if e in c.fromTcp {
        OnlyCrowded(from, e);
      }
    }
    forall e ensures e !in c.fromUdp {
      NoneForUdp(from, e);
    }
    forall p: u16 | 1 <= p <= 4096 ensures RuleEntry(p, net) != last {
      SameEntry(p, 5000, net);
    }
    EntriesCount(1, 4096, net);
    assert c.fromTcp == EntriesFor(1, 4096, net) + {last};
  }

  lemma MissesOne<T>(part: set<T>, all: set<T>, x: T, y: T)
    requires part <= all && |all| == |part| + 1 && x in all && y in all && x != y
    ensures x in part || y in part
  {
    var rest := all - {x, y};
    assert all == rest + {x, y};
    if x !in part && y !in part {
      SubsetCard(part, rest);
    }
  }

  lemma EntryOpens(trie: set<Node>, net: Cidr, ip: u32, p: u16)
    requires net.IsPrefix() && net.Contains(ip) && RuleNode(RuleEntry(p, net)) in trie
    ensures AllowedFrom(trie, V4(ip), p)
  {
    RuleMatchIsContains(p, net, p, ip);
    assert NodeMatches(RULE_BITS, RuleNode(RuleEntry(p, net)), Word(KeyOf(p, ip)));
  }

  lemma CrowdedNodes(from: CidrText, c: Compiled)
    requires ParseCidr(from).Ok? && CompiledFor(CrowdedPolicy(from), c)
    ensures |NodesOf(c.fromTcp, RuleNode)| == 4097
    ensures forall p: u16 :: Crowded(p) ==>
        RuleNode(RuleEntry(p, ParseCidr(from).value)) in NodesOf(c.fromTcp, RuleNode)
  {
    CrowdedEntries(from, c);
    CrowdedDistinct(from, c);
    DistinctCard(c.fromTcp, RuleNode);
  }

  lemma CrowdedApart(from: CidrText, c: Compiled, p: u16, q: u16)
    requires ParseCidr(from).Ok? && CompiledFor(CrowdedPolicy(from), c) && Crowded(p) && Crowded(q) && p != q
    ensures RuleNode(RuleEntry(p, ParseCidr(from).value)) != RuleNode(RuleEntry(q, ParseCidr(from).value))
  {
    CrowdedEntries(from, c);
    CrowdedDistinct(from, c);
    SameEntry(p, q, ParseCidr(from).value);
  }

  /** A trie of 4096 of the crowded nodes lets each source of the network in to all of those ports but one. */
  lemma FullTrieOpens(from: CidrText, c: Compiled, trie: set<Node>, ip: u32, p: u16, q: u16)
    requires ParseCidr(from).Ok? && CompiledFor(CrowdedPolicy(from), c) && ParseCidr(from).value.Contains(ip)
    requires trie <= NodesOf(c.fromTcp, RuleNode) && |trie| == RULE_ENTRIES
    requires Crowded(p) && Crowded(q) && p != q
    ensures AllowedFrom(trie, V4(ip), p) || AllowedFrom(trie, V4(ip), q)
  {
    var net := ParseCidr(from).value;
    var m, n := RuleNode(RuleEntry(p, net)), RuleNode(RuleEntry(q, net));
    CrowdedNodes(from, c);
    CrowdedApart(from, c, p, q);
    MissesOne(trie, NodesOf(c.fromTcp, RuleNode), m, n);
    ParsedIsPrefix(from);
    if m in trie {
      EntryOpens(trie, net, ip, p);
    } else {
      EntryOpens(trie, net, ip, q);
    }
  }

  lemma CrowdedDistinct(from: CidrText, c: Compiled)
    requires CompiledFor(CrowdedPolicy(from), c)
    ensures Distinct(c.fromTcp, RuleNode)
  {
    CompiledCanonical(CrowdedPolicy(from), c);
    CanonicalDistinct(c.fromTcp);
  }

  /** The crowded policy fails on empty tries, with the TCP trie full of its nodes. */
  lemma CrowdedStops(from: CidrText, c: Compiled, t0: Tries, t1: Tries, m1: Tries, ok: bool)
    requires ParseCidr(from).Ok? && CompiledFor(CrowdedPolicy(from), c) && |t1.tcp| <= RULE_ENTRIES
    requires t0 == Tries({}, {}) && BothUpdated(t0, Tries({}, {}), NodesFor(c.fromTcp, c.fromUdp), ok, t1, m1)
    ensures !ok && t1.tcp <= NodesOf(c.fromTcp, RuleNode) && |t1.tcp| == RULE_ENTRIES && m1 == Tries({}, {})
  {
    CrowdedNodes(from, c);
    StopsFull(NodesFor(c.fromTcp, c.fromUdp), t0, t1, m1, ok);
  }

  lemma StopsFull(want: Tries, t0: Tries, t1: Tries, m1: Tries, ok: bool)
    requires t0 == Tries({}, {}) && |t1.tcp| <= RULE_ENTRIES < |want.tcp|
    requires BothUpdated(t0, Tries({}, {}), want, ok, t1, m1)
    ensures !ok && t1.tcp <= want.tcp && |t1.tcp| == RULE_ENTRIES && m1 == Tries({}, {})
  {
  }

  lemma NothingToDo(t1: Tries, t2: Tries, m2: Tries, ok: bool)
    requires BothUpdated(t1, Tries({}, {}), Tries({}, {}), ok, t2, m2)
    ensures ok && t2 == t1
  {
  }

  /**
   * An apply that stops half way leaves ports open that no later configuration opens: after the crowded policy has
   * failed on empty tries, a policy that restricts nothing applies cleanly, and its trie still lets each source of the
   * network in to all but one of the 4097 ports.
   */
  lemma HalfDoneLeaks(from: CidrText, c: Compiled, t0: Tries, t1: Tries, m1: Tries, t2: Tries, m2: Tries, first: bool,
                      second: bool, ip: u32, p: u16, q: u16)
    requires ParseCidr(from).Ok? && CompiledFor(CrowdedPolicy(from), c) && ParseCidr(from).value.Contains(ip)
    requires t0 == Tries({}, {}) && BothUpdated(t0, Tries({}, {}), NodesFor(c.fromTcp, c.fromUdp), first, t1, m1)
    requires |t1.tcp| <= RULE_ENTRIES && BothUpdated(t1, m1, Tries({}, {}), second, t2, m2)
    requires Crowded(p) && Crowded(q) && p != q
    ensures !first && second && |t2.tcp| == RULE_ENTRIES
    ensures AllowedFrom(t2.tcp, V4(ip), p) || AllowedFrom(t2.tcp, V4(ip), q)
  {
    CrowdedStops(from, c, t0, t1, m1, first);
    NothingToDo(t1, t2, m2, second);
    FullTrieOpens(from, c, t1.tcp, ip, p, q);
  }

  /**
   * With a full trie and nothing in the mirror, as the crowded policy leaves them, an update either wants only nodes
   * that are there or fails and leaves trie and mirror as they were.
   */
  lemma Wedged(t1: Tries, m1: Tries, want: Tries, ok: bool, t2: Tries, m2: Tries)
    requires |t1.tcp| == RULE_ENTRIES && m1.tcp == {} && |t2.tcp| <= RULE_ENTRIES
    requires BothUpdated(t1, m1, want, ok, t2, m2) && !(want.tcp <= t1.tcp)
    ensures !ok && t2 == t1 && m2 == m1
  {
    assert t1.tcp - (m1.tcp - want.tcp) == t1.tcp && want.tcp - m1.tcp == want.tcp;
    var n :| n in want.tcp && n !in t1.tcp;
    if t2.tcp == t1.tcp + want.tcp {
      FewerThan(t1.tcp, t2.tcp, n);
    } else {
      SameIfFull(t1.tcp, t2.tcp);
    }
  }

  lemma SameIfFull<T>(s: set<T>, t: set<T>)
    requires s <= t && |s| == |t|
    ensures s == t
  {
    if x :| x in t && x !in s {
      FewerThan(s, t, x);
    }
  }

  /** So every later apply that restricts a port to anything else fails, however few its rules, and changes nothing. */
  lemma {:induction false} WedgedForGood(ts: seq<Tries>, ms: seq<Tries>, wants: seq<Tries>, oks: seq<bool>)
    requires |ts| == |ms| == |wants| + 1 && |oks| == |wants|
    requires |ts[0].tcp| == RULE_ENTRIES && ms[0].tcp == {}
    requires forall i :: 0 <= i < |wants| ==> !(wants[i].tcp <= ts[0].tcp) && |ts[i + 1].tcp| <= RULE_ENTRIES
    requires forall i :: 0 <= i < |wants| ==> BothUpdated(ts[i], ms[i], wants[i], oks[i], ts[i + 1], ms[i + 1])
    ensures ts[|wants|] == ts[0] && ms[|wants|] == ms[0] && forall i :: 0 <= i < |wants| ==> !oks[i]
  {
    if wants != [] {
      var n := |wants| - 1;
      forall i | 0 <= i < n
        ensures BothUpdated(ts[..n + 1][i], ms[..n + 1][i], wants[..n][i], oks[..n][i], ts[..n + 1][i + 1],
                            ms[..n + 1][i + 1])
      {
        assert BothUpdated(ts[i], ms[i], wants[i], oks[i], ts[i + 1], ms[i + 1]);
      }
      WedgedForGood(ts[..n + 1], ms[..n + 1], wants[..n], oks[..n]);
      assert forall i :: 0 <= i < n ==> oks[..n][i] == oks[i];
      Wedged(ts[n], ms[n], wants[n], oks[n], ts[n + 1], ms[n + 1]);
    }
  }

  /** One port, restricted to one network. */
  function LonePolicy(from: CidrText): Policy {
    Policy(None, [], [], true, [Rule("tcp", One(6000), Some(from), None)])
  }

  lemma LoneCompiles(from: CidrText)
    requires ParseCidr(from).Ok?
    ensures LonePolicy(from).Valid() && LonePolicy(from).Compiles()
  {
    assert LonePolicy(from).rules[0].Valid();
  }

  /** Its one node is none of the crowded policy's. */
  lemma LoneIsNew(from: CidrText, crowded: Compiled, c: Compiled, trie: set<Node>)
    requires ParseCidr(from).Ok? && CompiledFor(CrowdedPolicy(from), crowded) && CompiledFor(LonePolicy(from), c)
    requires trie <= NodesOf(crowded.fromTcp, RuleNode)
    ensures |c.fromTcp| == 1 && c.fromUdp == {} && !(NodesOf(c.fromTcp, RuleNode) <= trie)
  {
    var net := ParseCidr(from).value;
    var only := RuleEntry(6000, net);
    hide *;
    LoneEntries(from, c);
    LoneNotCrowded(from, crowded);
    CompiledCanonical(CrowdedPolicy(from), crowded);
    CompiledCanonical(LonePolicy(from), c);
    CanonicalPair(crowded.fromTcp, c.fromTcp);
    NewNode(crowded.fromTcp, c.fromTcp, only, RuleNode, trie);
  }

  lemma NewNode<E(!new)>(those: set<E>, more: set<E>, e: E, node: E -> Node, trie: set<Node>)
    requires Distinct(those + more, node) && e in more && e !in those && trie <= NodesOf(those, node)
    ensures !(NodesOf(more, node) <= trie)
  {
    assert node(e) in NodesOf(more, node);
  }

  lemma LoneNotCrowded(from: CidrText, c: Compiled)
    requires ParseCidr(from).Ok? && CompiledFor(CrowdedPolicy(from), c)
    ensures RuleEntry(6000, ParseCidr(from).value) !in c.fromTcp
  {
    var net := ParseCidr(from).value;
    if RuleEntry(6000, net) in c.fromTcp {
      OnlyCrowded(from, RuleEntry(6000, net));
      forall p: u16 | Crowded(p) ensures RuleEntry(p, net) != RuleEntry(6000, net) {
        SameEntry(p, 6000, net);
      }
    }
  }

  lemma LoneEntries(from: CidrText, c: Compiled)
    requires ParseCidr(from).Ok? && CompiledFor(LonePolicy(from), c)
    ensures c.fromTcp == {RuleEntry(6000, ParseCidr(from).value)} && c.fromUdp == {}
  {
    var rules := LonePolicy(from).rules;
    var only := RuleEntry(6000, ParseCidr(from).value);
    assert Done(rules, 1, 0, 0, 6000);
    forall e ensures e in c.fromTcp <==> e == only {
      if e in c.fromTcp {
        var k, p: u16 :| Done(rules, 1, 0, k, p) && rules[k].from.Some? && e == RuleEntry(p, Net(rules[k]));
      }
    }
    forall e ensures e !in c.fromUdp {
    }
  }

  const CLOSED: Policy := Policy(None, [], [], false, [])

  lemma NoNodesNoEntries(tcp: set<(nat, RuleKey)>, udp: set<(nat, RuleKey)>)
    requires NodesFor(tcp, udp) == Tries({}, {})
    ensures tcp == {} && udp == {}
  {
    assert forall e :: e in tcp ==> RuleNode(e) in NodesOf(tcp, RuleNode);
    assert forall e :: e in udp ==> RuleNode(e) in NodesOf(udp, RuleNode);
  }

  method ApplyCrowded(k: Kernel, cfg: Config, from: CidrText, ephemeralLow: u32) returns (r: Result<()>,
                      ghost c: Compiled)
    requires k.WellKept() && k.InSync() && k.fromTcpKeys == {} && k.fromUdpKeys == {} && ParseCidr(from).Ok?
    modifies k`openTcp, k`openUdp, k`fromTcpKeys, k`fromUdpKeys, k`rateSet, k.xdp`rules
    ensures k.WellKept() && r.Err? && CompiledFor(CrowdedPolicy(from), c)
    ensures k.fromTcpKeys == {} && k.fromUdpKeys == {}
    ensures k.xdp.rules.fromTcp <= NodesOf(c.fromTcp, RuleNode) && |k.xdp.rules.fromTcp| == RULE_ENTRIES
  {
    ghost var t0 := TriesOf(k.xdp.rules);
    assert t0 == Tries({}, {}) && NodesFor(k.fromTcpKeys, k.fromUdpKeys) == Tries({}, {});
    hide BothUpdated, Holds, Updated, CompiledFor, NodesFor;
    CrowdedIsValid(from);
    r, c := k.LoadPolicy(cfg, CrowdedPolicy(from), ephemeralLow);
    ghost var m1 := NodesFor(k.fromTcpKeys, k.fromUdpKeys);
    CrowdedStops(from, c, t0, TriesOf(k.xdp.rules), m1, r.Ok?);
    NoNodesNoEntries(k.fromTcpKeys, k.fromUdpKeys);
  }

  /**
   * The wedge through the daemon's own calls: after the crowded policy has failed, a policy with one restricted port,
   * which any trie could hold, fails as well and changes no trie and no mirror of one.
   */
  method ApplyCrowdedThenLone(k: Kernel, cfg: Config, from: CidrText, ephemeralLow: u32)
    returns (first: Result<()>, second: Result<()>, ghost c: Compiled)
    requires k.WellKept() && k.InSync() && k.fromTcpKeys == {} && k.fromUdpKeys == {} && ParseCidr(from).Ok?
    modifies k`openTcp, k`openUdp, k`fromTcpKeys, k`fromUdpKeys, k`rateSet, k.xdp`rules
    ensures k.WellKept() && first.Err? && second.Err?
    ensures CompiledFor(LonePolicy(from), c) && |c.fromTcp| == 1 && c.fromUdp == {}
    ensures |k.xdp.rules.fromTcp| == RULE_ENTRIES && k.fromTcpKeys == {} && k.fromUdpKeys == {}
  {
    ghost var crowded;
    first, crowded := ApplyCrowded(k, cfg, from, ephemeralLow);
    ghost var t1, m1 := TriesOf(k.xdp.rules), NodesFor(k.fromTcpKeys, k.fromUdpKeys);
    assert m1 == Tries({}, {});
    hide BothUpdated, Holds, Updated, CompiledFor, BothFit, BothClean;
    LoneCompiles(from);
    second, c := k.LoadPolicy(cfg, LonePolicy(from), ephemeralLow);
    ghost var m2 := NodesFor(k.fromTcpKeys, k.fromUdpKeys);
    LoneIsNew(from, crowded, c, t1.tcp);
    Wedged(t1, m1, NodesFor(c.fromTcp, c.fromUdp), second.Ok?, TriesOf(k.xdp.rules), m2);
    NoNodesNoEntries(k.fromTcpKeys, k.fromUdpKeys);
  }

  method ApplyClosed(k: Kernel, cfg: Config, ephemeralLow: u32) returns (r: Result<()>)
    requires k.WellKept() && k.fromTcpKeys == {} && k.fromUdpKeys == {}
    modifies k`openTcp, k`openUdp, k`fromTcpKeys, k`fromUdpKeys, k`rateSet, k.xdp`rules
    ensures k.WellKept() && r.Ok? && TriesOf(k.xdp.rules) == TriesOf(old(k.xdp.rules))
  {
    assert NodesFor(k.fromTcpKeys, k.fromUdpKeys) == Tries({}, {});
    hide BothUpdated, Holds, Updated, CompiledFor;
    ghost var c;
    ghost var t1 := TriesOf(k.xdp.rules);
    r, c := k.LoadPolicy(cfg, CLOSED, ephemeralLow);
    ClosedEntries(c);
    NothingToDo(t1, TriesOf(k.xdp.rules), NodesFor(k.fromTcpKeys, k.fromUdpKeys), r.Ok?);
  }

  /** The same through the daemon's own calls: the second apply reports success, and the ports are open. */
  method ApplyCrowdedThenClosed(k: Kernel, cfg: Config, from: CidrText, ephemeralLow: u32)
    returns (first: Result<()>, second: Result<()>)
    requires k.WellKept() && k.InSync() && k.fromTcpKeys == {} && k.fromUdpKeys == {} && ParseCidr(from).Ok?
    modifies k`openTcp, k`openUdp, k`fromTcpKeys, k`fromUdpKeys, k`rateSet, k.xdp`rules
    ensures first.Err? && second.Ok?
    ensures forall ip: u32, p: u16, q: u16 ::
      ParseCidr(from).value.Contains(ip) && Crowded(p) && Crowded(q) && p != q ==>
        PortOpen(k.xdp.rules, Tcp, V4(ip), p) || PortOpen(k.xdp.rules, Tcp, V4(ip), q)
    ensures forall ip: u32, p: u16 :: !PolicyOpens(CLOSED, Tcp, V4(ip), p)
  {
    ghost var c;
    first, c := ApplyCrowded(k, cfg, from, ephemeralLow);
    second := ApplyClosed(k, cfg, ephemeralLow);
    forall ip: u32, p: u16, q: u16 | ParseCidr(from).value.Contains(ip) && Crowded(p) && Crowded(q) && p != q
      ensures PortOpen(k.xdp.rules, Tcp, V4(ip), p) || PortOpen(k.xdp.rules, Tcp, V4(ip), q)
    {
      FullTrieOpens(from, c, k.xdp.rules.fromTcp, ip, p, q);
    }
  }

  lemma ClosedEntries(c: Compiled)
    requires CompiledFor(CLOSED, c)
    ensures c.fromTcp == {} && c.fromUdp == {}
  {
  }

  function Singles(base: u32, n: nat): set<Cidr> {
    set ip: u32 | base <= ip < base + n :: Single(ip)
  }

  /** Feeds can list more than the trie holds: any number of single addresses. */
  lemma {:induction false} SinglesCount(base: u32, n: nat)
    requires base + n <= U32_MAX
    ensures |Singles(base, n)| == n && forall c :: c in Singles(base, n) ==> c.IsPrefix()
  {
    hide Cidr.IsPrefix, Cidr.Bits;
    if n == 0 {
      assert Singles(base, 0) == {};
    } else {
      SinglesCount(base, n - 1);
      SingleIsPrefix(base + n - 1);
      assert Singles(base, n) == Singles(base, n - 1) + {Single(base + n - 1)};
    }
  }

  /**
   * After feeds that list more networks than fit, some network listed is missing; loaded on its own next, where it
   * would fit, it is not tried, and the trie is empty.
   */
  lemma SkippedThenAlone(wanted: set<Cidr>, added: set<Cidr>, trie: set<Node>) returns (c: Cidr)
    requires (forall d :: d in wanted ==> d.IsPrefix()) && |wanted| > FEED_ENTRIES
    requires Fed({}, {}, wanted, added, trie) && |trie| <= FEED_ENTRIES
    ensures c in wanted && FeedNode(c) !in trie
    ensures forall more, trie' :: Fed(trie, wanted, {c}, more, trie') ==> trie' == {}
  {
    hide FeedNode;
    FeedsDistinct(wanted);
    DistinctCard(wanted, FeedNode);
    c := OneMissing(wanted, FeedNode, trie);
    forall more, trie' | Fed(trie, wanted, {c}, more, trie') ensures trie' == {} {
      assert {c} - wanted == {};
      assert NodesOf(more, FeedNode) == {};
      assert trie <= NodesOf(wanted - {c}, FeedNode);
    }
  }

  lemma OneMissing<E(!new)>(wanted: set<E>, node: E -> Node, trie: set<Node>) returns (e: E)
    requires |NodesOf(wanted, node)| > |trie|
    ensures e in wanted && node(e) !in trie
  {
    if forall f :: f in wanted ==> node(f) in trie {
      SubsetCard(NodesOf(wanted, node), trie);
      assert false;
    }
    e :| e in wanted && node(e) !in trie;
  }
}
