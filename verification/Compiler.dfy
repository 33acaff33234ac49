/** The rule compiler (daemon.rs `compile`) and the proof that the compiled maps mean what the policy says. */
module Compiler {
  import opened Words
  import opened Wrappers
  import opened Common
  import opened Cidrs
  import opened Configuration
  import opened RuleKeys

  const DHCP_CLIENT_PORTS: set<u16> := {68, 546}

  datatype Compiled = Compiled(
    tcp: set<u16>,
    udp: set<u16>,
    fromTcp: set<(nat, RuleKey)>,
    fromUdp: set<(nat, RuleKey)>,
    rates: map<u16, u32>)

  /** Rule `k` has been compiled for port `p` when rules before `i` and ports of rule `i` below `q` are done. */
  predicate Done(rules: seq<Rule>, i: nat, q: nat, k: int, p: u16) {
    0 <= k < |rules| && rules[k].port.Covers(p) && (k < i || (k == i && p < q))
  }

  function Net(r: Rule): Cidr
    requires r.from.Some? && r.FromOk()
  {
    ParseCidr(r.from.value).value
  }

  predicate Rated(r: Rule) {
    r.Rate().Ok? && r.Rate().value.Some?
  }

  function Pair(r: Rule): (u16, u16)
    requires Rated(r)
  {
    r.Rate().value.value
  }

  /** count / window of `a` is at most that of `b`, as fractions. */
  predicate NoFaster(a: (u16, u16), b: (u16, u16)) {
    a.0 * b.1 <= b.0 * a.1
  }

  ghost predicate Opens(rules: seq<Rule>, i: nat, q: nat, tcp: bool, p: u16) {
    exists k :: Done(rules, i, q, k, p) && rules[k].IsTcp() == tcp && rules[k].from.None?
  }

  ghost predicate Restricted(rules: seq<Rule>, i: nat, q: nat, tcp: bool, e: (nat, RuleKey)) {
    exists k, p: u16 :: Done(rules, i, q, k, p) && rules[k].IsTcp() == tcp
      && rules[k].from.Some? && rules[k].FromOk() && e == RuleEntry(p, Net(rules[k]))
  }

  /** Rule `k` sets the slowest limit on `p`, and is the first to set one that slow. */
  ghost predicate Slowest(rules: seq<Rule>, i: nat, q: nat, p: u16, k: int) {
    && Done(rules, i, q, k, p) && Rated(rules[k])
    && forall j :: Done(rules, i, q, j, p) && Rated(rules[j]) ==>
         NoFaster(Pair(rules[k]), Pair(rules[j])) && (j < k ==> !NoFaster(Pair(rules[j]), Pair(rules[k])))
  }

  ghost predicate RateFor(rules: seq<Rule>, i: nat, q: nat, rates: map<u16, u32>, p: u16) {
    if p in rates then
      exists k :: Slowest(rules, i, q, p, k) && rates[p] == RatePack(Pair(rules[k]).0, Pair(rules[k]).1)
    else
      forall j :: Done(rules, i, q, j, p) ==> !Rated(rules[j])
  }

  ghost predicate OpenDone(policy: Policy, i: nat, q: nat, c: Compiled) {
    && (forall p: u16 :: p in c.tcp <==> InSpecs(policy.allowTcp, p) || Opens(policy.rules, i, q, true, p))
    && (forall p: u16 :: p in c.udp <==>
          InSpecs(policy.allowUdp, p) || p in DHCP_CLIENT_PORTS || Opens(policy.rules, i, q, false, p))
  }

  ghost predicate FromDone(rules: seq<Rule>, i: nat, q: nat, c: Compiled) {
    && (forall e :: e in c.fromTcp <==> Restricted(rules, i, q, true, e))
    && (forall e :: e in c.fromUdp <==> Restricted(rules, i, q, false, e))
  }

  ghost predicate PlacesDone(policy: Policy, i: nat, q: nat, c: Compiled) {
    OpenDone(policy, i, q, c) && FromDone(policy.rules, i, q, c)
  }

  ghost predicate RatesDone(rules: seq<Rule>, i: nat, q: nat, rates: map<u16, u32>) {
    forall p: u16 {:trigger RateFor(rules, i, q, rates, p)} :: RateFor(rules, i, q, rates, p)
  }

  ghost predicate Compiling(policy: Policy, i: nat, q: nat, c: Compiled) {
    PlacesDone(policy, i, q, c) && RatesDone(policy.rules, i, q, c.rates)
  }

  /** The maps hold exactly what the policy's lists and rules put there. */
  ghost predicate CompiledFor(policy: Policy, c: Compiled) {
    Compiling(policy, |policy.rules|, 0, c)
  }

  /** One port of one rule: open it, or restrict it to the rule's network, and keep the slower limit. */
  function AddPort(c: Compiled, tcp: bool, from: Option<Cidr>, rate: Option<(u16, u16)>, p: u16): Compiled {
    var placed :=
      match from
      case None => if tcp then c.(tcp := c.tcp + {p}) else c.(udp := c.udp + {p})
      case Some(net) =>
        if tcp then c.(fromTcp := c.fromTcp + {RuleEntry(p, net)})
        else c.(fromUdp := c.fromUdp + {RuleEntry(p, net)});
    match rate
    case None => placed
    case Some((max, window)) =>
      if p !in c.rates then placed.(rates := c.rates[p := RatePack(max, window)])
      else
        var (m, w) := (RateMax(c.rates[p]), RateWindow(c.rates[p]));
        if max * w < m * window then placed.(rates := c.rates[p := RatePack(max, window)]) else placed
  }

  /** All the ports of one rule, in order. */
  method AddRule(policy: Policy, i: nat, c: Compiled) returns (r: Result<Compiled>)
    requires i < |policy.rules| && Compiling(policy, i, 0, c)
    ensures r.Ok? <==> policy.rules[i].Compiles()
    ensures r.Ok? ==> Compiling(policy, i + 1, 0, r.value)
  {
    var rule := policy.rules[i];
    var from := None;
    if rule.from.Some? {
      var net :- ParseCidr(rule.from.value);
      from := Some(net);
    }
    var rate :- rule.Rate();
    var ports :- rule.port.Ports();
    var lo: int, hi: int := ports.0, ports.1;
    var d := c;
    EnterRule(policy, i, lo, d);
    for p := lo to hi + 1
      invariant Compiling(policy, i, p, d)
    {
      var next := AddPort(d, rule.IsTcp(), from, rate, p);
      PortStep(policy, i, p, d, next);
      d := next;
    }
    LeaveRule(policy, i, hi + 1, d);
    r := Ok(d);
  }

  lemma NothingDone(policy: Policy, c: Compiled)
    requires forall p: u16 :: p in c.tcp <==> InSpecs(policy.allowTcp, p)
    requires forall p: u16 :: p in c.udp <==> InSpecs(policy.allowUdp, p) || p in DHCP_CLIENT_PORTS
    requires c.fromTcp == {} && c.fromUdp == {} && c.rates == map[]
    ensures Compiling(policy, 0, 0, c)
  {
  }

  method Compile(policy: Policy) returns (r: Result<Compiled>)
    ensures r.Ok? <==> policy.Compiles()
    ensures r.Ok? ==> CompiledFor(policy, r.value)
  {
    var tcp :- Expand(policy.allowTcp);
    var udp :- Expand(policy.allowUdp);
    var c := Compiled(set p | p in tcp, (set p | p in udp) + DHCP_CLIENT_PORTS, {}, {}, map[]);
    NothingDone(policy, c);
    for i := 0 to |policy.rules|
      invariant forall j :: 0 <= j < i ==> policy.rules[j].Compiles()
      invariant Compiling(policy, i, 0, c)
    {
      c :- AddRule(policy, i, c);
    }
    r := Ok(c);
  }

  lemma SameDone(policy: Policy, i: nat, q: nat, i': nat, q': nat, c: Compiled)
    requires Compiling(policy, i, q, c)
    requires forall k: int, p: u16 :: Done(policy.rules, i, q, k, p) <==> Done(policy.rules, i', q', k, p)
    ensures Compiling(policy, i', q', c)
  {
    var rules := policy.rules;
    forall tcp: bool, p: u16 ensures Opens(rules, i, q, tcp, p) <==> Opens(rules, i', q', tcp, p) {
    }
    forall tcp: bool, e: (nat, RuleKey)
      ensures Restricted(rules, i, q, tcp, e) <==> Restricted(rules, i', q', tcp, e)
    {
    }
    forall p: u16 ensures RateFor(rules, i', q', c.rates, p) {
      assert RateFor(rules, i, q, c.rates, p);
      if p in c.rates {
        var k :| Slowest(rules, i, q, p, k) && c.rates[p] == RatePack(Pair(rules[k]).0, Pair(rules[k]).1);
        assert Slowest(rules, i', q', p, k);
      }
    }
  }

  lemma EnterRule(policy: Policy, i: nat, lo: u16, c: Compiled)
    requires Compiling(policy, i, 0, c)
    requires i < |policy.rules| && policy.rules[i].port.Ports().Ok? && policy.rules[i].port.Ports().value.0 == lo
    ensures Compiling(policy, i, lo, c)
  {
    SameDone(policy, i, 0, i, lo, c);
  }

  lemma LeaveRule(policy: Policy, i: nat, q: nat, c: Compiled)
    requires Compiling(policy, i, q, c)
    requires i < |policy.rules| && policy.rules[i].port.Ports().Ok? && policy.rules[i].port.Ports().value.1 + 1 == q
    ensures Compiling(policy, i + 1, 0, c)
  {
    SameDone(policy, i, q, i + 1, 0, c);
  }

  lemma PortStep(policy: Policy, i: nat, q: u16, c: Compiled, c': Compiled)
    requires Compiling(policy, i, q, c)
    requires i < |policy.rules| && policy.rules[i].Compiles() && policy.rules[i].port.Covers(q)
    requires var r := policy.rules[i];
      c' == AddPort(c, r.IsTcp(), if r.from.None? then None else Some(Net(r)), r.Rate().value, q)
    ensures Compiling(policy, i, q + 1, c')
  {
    PlacesStep(policy, i, q, c, c');
    RatesStep(policy.rules, i, q, c.rates, c'.rates);
  }

  lemma PlacesStep(policy: Policy, i: nat, q: u16, c: Compiled, c': Compiled)
    requires PlacesDone(policy, i, q, c)
    requires i < |policy.rules| && policy.rules[i].Compiles() && policy.rules[i].port.Covers(q)
    requires var r := policy.rules[i];
      c' == AddPort(c, r.IsTcp(), if r.from.None? then None else Some(Net(r)), r.Rate().value, q)
    ensures PlacesDone(policy, i, q + 1, c')
  {
    OpenPlaced(policy, i, q, c, c');
    FromPlaced(policy.rules, i, q, c, c');
  }

  lemma OpenPlaced(policy: Policy, i: nat, q: u16, c: Compiled, c': Compiled)
    requires OpenDone(policy, i, q, c) && i < |policy.rules| && policy.rules[i].port.Covers(q)
    requires var r := policy.rules[i];
      && c'.tcp == (if r.from.None? && r.IsTcp() then c.tcp + {q} else c.tcp)
      && c'.udp == (if r.from.None? && !r.IsTcp() then c.udp + {q} else c.udp)
    ensures OpenDone(policy, i, q + 1, c')
  {
    var rules := policy.rules;
    forall tcp: bool, p: u16
      ensures Opens(rules, i, q + 1, tcp, p) <==>
              Opens(rules, i, q, tcp, p) || (p == q && rules[i].IsTcp() == tcp && rules[i].from.None?)
    {
      OpensStep(rules, i, q, tcp, p);
    }
  }

  lemma FromPlaced(rules: seq<Rule>, i: nat, q: u16, c: Compiled, c': Compiled)
    requires FromDone(rules, i, q, c) && i < |rules| && rules[i].port.Covers(q) && rules[i].FromOk()
    requires var r := rules[i];
      && c'.fromTcp == (if r.from.Some? && r.IsTcp() then c.fromTcp + {RuleEntry(q, Net(r))} else c.fromTcp)
      && c'.fromUdp == (if r.from.Some? && !r.IsTcp() then c.fromUdp + {RuleEntry(q, Net(r))} else c.fromUdp)
    ensures FromDone(rules, i, q + 1, c')
  {
    forall tcp: bool, e: (nat, RuleKey)
      ensures Restricted(rules, i, q + 1, tcp, e) <==> (Restricted(rules, i, q, tcp, e)
              || (rules[i].IsTcp() == tcp && rules[i].from.Some? && e == RuleEntry(q, Net(rules[i]))))
    {
      RestrictedStep(rules, i, q, tcp, e);
    }
  }

  lemma OpensStep(rules: seq<Rule>, i: nat, q: u16, tcp: bool, p: u16)
    requires i < |rules| && rules[i].port.Covers(q)
    ensures Opens(rules, i, q + 1, tcp, p) <==>
            Opens(rules, i, q, tcp, p) || (p == q && rules[i].IsTcp() == tcp && rules[i].from.None?)
  {
    forall k: int ensures Done(rules, i, q + 1, k, p) <==> Done(rules, i, q, k, p) || (k == i && p == q) {
    }
    assert p == q ==> Done(rules, i, q + 1, i, p);
  }

  lemma RestrictedStep(rules: seq<Rule>, i: nat, q: u16, tcp: bool, e: (nat, RuleKey))
    requires i < |rules| && rules[i].port.Covers(q) && rules[i].FromOk()
    ensures Restricted(rules, i, q + 1, tcp, e) <==> (Restricted(rules, i, q, tcp, e)
            || (rules[i].IsTcp() == tcp && rules[i].from.Some? && e == RuleEntry(q, Net(rules[i]))))
  {
    forall k: int, p: u16 ensures Done(rules, i, q + 1, k, p) <==> Done(rules, i, q, k, p) || (k == i && p == q) {
    }
    assert Done(rules, i, q + 1, i, q);
  }

  lemma RatesStep(rules: seq<Rule>, i: nat, q: u16, rates: map<u16, u32>, rates': map<u16, u32>)
    requires RatesDone(rules, i, q, rates)
    requires i < |rules| && rules[i].Compiles() && rules[i].port.Covers(q)
    requires forall p: u16 :: p != q || !Rated(rules[i]) ==>
      (p in rates' <==> p in rates) && (p in rates ==> rates'[p] == rates[p])
    requires Rated(rules[i]) ==> q in rates' && (var (max, window) := Pair(rules[i]);
      rates'[q] ==
        if q !in rates || max * RateWindow(rates[q]) < RateMax(rates[q]) * window
            then RatePack(max, window) else rates[q])
    ensures RatesDone(rules, i, q + 1, rates')
  {
    forall p: u16 {:trigger RateFor(rules, i, q + 1, rates', p)} ensures RateFor(rules, i, q + 1, rates', p) {
      assert RateFor(rules, i, q, rates, p);
      RateStep(rules, i, q, rates, rates', p);
    }
  }

  lemma RateStep(rules: seq<Rule>, i: nat, q: u16, rates: map<u16, u32>, rates': map<u16, u32>, p: u16)
    requires i < |rules| && rules[i].Compiles() && rules[i].port.Covers(q)
    requires RateFor(rules, i, q, rates, p)
    requires p != q || !Rated(rules[i]) ==>
      (p in rates' <==> p in rates) && (p in rates ==> rates'[p] == rates[p])
    requires p == q && Rated(rules[i]) ==> p in rates' && (var (max, window) := Pair(rules[i]);
      rates'[p] ==
        if p !in rates || max * RateWindow(rates[p]) < RateMax(rates[p]) * window
            then RatePack(max, window) else rates[p])
    ensures RateFor(rules, i, q + 1, rates', p)
  {
    if p in rates {
      var k :| Slowest(rules, i, q, p, k) && rates[p] == RatePack(Pair(rules[k]).0, Pair(rules[k]).1);
      Unpack(Pair(rules[k]).0, Pair(rules[k]).1);
      if p == q && Rated(rules[i]) {
        RateBounds(rules[i]);
        RateBounds(rules[k]);
        if NoFaster(Pair(rules[k]), Pair(rules[i])) {
          assert Slowest(rules, i, q + 1, p, k);
        } else {
          forall j | Done(rules, i, q, j, p) && Rated(rules[j])
            ensures NoFaster(Pair(rules[i]), Pair(rules[j])) && !NoFaster(Pair(rules[j]), Pair(rules[i]))
          {
            RateBounds(rules[j]);
            SlowerTransitive(Pair(rules[i]), Pair(rules[k]), Pair(rules[j]));
          }
          assert Done(rules, i, q + 1, i, p);
          assert Slowest(rules, i, q + 1, p, i);
        }
      } else {
        assert Slowest(rules, i, q + 1, p, k);
      }
    } else if p == q && Rated(rules[i]) {
      assert Done(rules, i, q + 1, i, p);
      assert Slowest(rules, i, q + 1, p, i);
    }
  }

  lemma SlowerTransitive(a: (u16, u16), b: (u16, u16), c: (u16, u16))
    requires a.1 > 0 && b.1 > 0 && c.1 > 0
    requires !NoFaster(b, a) && NoFaster(b, c)
    ensures NoFaster(a, c) && !NoFaster(c, a)
  {
    var x: int, u: int, y: int, v: int, z: int, w: int := a.0, a.1, b.0, b.1, c.0, c.1;
    assert x * v < y * u && y * w <= z * v;
    assert x * v * w < y * u * w by {
      assert (y * u - x * v) * w > 0;
    }
    assert y * w * u <= z * v * u;
    assert (x * w) * v < (z * u) * v;
  }

  /** A packed limit unpacks to the same pair, and is never the 0 that stands for "no limit". */
  lemma Unpack(max: u16, window: u16)
    ensures RateMax(RatePack(max, window)) == max && RateWindow(RatePack(max, window)) == window
    ensures max > 0 ==> RatePack(max, window) != 0
  {
    DivUnique(RatePack(max, window), 0x1_0000, max, window);
  }

  /** What a policy says about a port and a source, read straight from its lists and rules. */
  ghost predicate PolicyOpens(policy: Policy, proto: Proto, src: Src, p: u16) {
    || InSpecs(if proto == Tcp then policy.allowTcp else policy.allowUdp, p)
    || (proto == Udp && (p == 68 || p == 546))
    || exists k :: 0 <= k < |policy.rules| && (policy.rules[k].proto == "tcp") == (proto == Tcp)
         && policy.rules[k].port.Covers(p) && policy.rules[k].Admits(src)
  }

  ghost predicate TrieHit(entries: set<(nat, RuleKey)>, src: Src, p: u16) {
    src.V4? && exists e :: e in entries && RuleMatches(e.0, e.1, KeyOf(p, src.ip))
  }

  /** What the compiled maps say about the same question. */
  ghost predicate CompiledOpens(c: Compiled, proto: Proto, src: Src, p: u16) {
    match proto
    case Tcp => p in c.tcp || TrieHit(c.fromTcp, src, p)
    case Udp => p in c.udp || TrieHit(c.fromUdp, src, p)
  }

  /** Compilation preserves meaning, for every policy that compiles, every protocol, source and port. */
  lemma CompilePreservesMeaning(policy: Policy, c: Compiled, proto: Proto, src: Src, p: u16)
    requires policy.Compiles() && CompiledFor(policy, c)
    ensures CompiledOpens(c, proto, src, p) <==> PolicyOpens(policy, proto, src, p)
  {
    var rules, n := policy.rules, |policy.rules|;
    var tcp := proto == Tcp;
    TrieMeansRules(policy, tcp, src, p);
    if k :| 0 <= k < n && rules[k].IsTcp() == tcp && rules[k].port.Covers(p) && rules[k].from.None? {
      assert Done(rules, n, 0, k, p);
      assert Opens(rules, n, 0, tcp, p);
    }
  }

  lemma TrieMeansRules(policy: Policy, tcp: bool, src: Src, p: u16)
    requires policy.Compiles()
    ensures (src.V4? && (exists e :: (Restricted(policy.rules, |policy.rules|, 0, tcp, e)
              && RuleMatches(e.0, e.1, KeyOf(p, src.ip))))) <==>
            exists k :: 0 <= k < |policy.rules| && policy.rules[k].IsTcp() == tcp && policy.rules[k].port.Covers(p)
              && policy.rules[k].from.Some? && policy.rules[k].Admits(src)
  {
    var rules, n := policy.rules, |policy.rules|;
    if src.V4? {
      forall k, q: u16 | 0 <= k < n && rules[k].from.Some?
        ensures var e := RuleEntry(q, Net(rules[k]));
          RuleMatches(e.0, e.1, KeyOf(p, src.ip)) <==> q == p && Net(rules[k]).Contains(src.ip)
      {
        ParsedIsPrefix(rules[k].from.value);
        RuleMatchIsContains(q, Net(rules[k]), p, src.ip);
      }
      if k :| 0 <= k < n && rules[k].IsTcp() == tcp && rules[k].port.Covers(p)
              && rules[k].from.Some? && rules[k].Admits(src) {
        assert Done(rules, n, 0, k, p);
        assert Restricted(rules, n, 0, tcp, RuleEntry(p, Net(rules[k])));
      }
    }
  }

  /** Every compiled restriction is the entry of some port and some canonical network. */
  lemma EntriesAreCanonical(policy: Policy, tcp: bool, e: (nat, RuleKey)) returns (p: u16, net: Cidr)
    requires Restricted(policy.rules, |policy.rules|, 0, tcp, e)
    ensures net.IsPrefix() && e == RuleEntry(p, net)
  {
    var rules, n := policy.rules, |policy.rules|;
    var k, q: u16 :| Done(rules, n, 0, k, q) && rules[k].IsTcp() == tcp
      && rules[k].from.Some? && rules[k].FromOk() && e == RuleEntry(q, Net(rules[k]));
    ParsedIsPrefix(rules[k].from.value);
    p, net := q, Net(rules[k]);
  }

  ghost predicate Limits(policy: Policy, k: int, p: u16) {
    0 <= k < |policy.rules| && policy.rules[k].port.Covers(p) && Rated(policy.rules[k])
  }

  /**
   * The lowest rate wins: a port has a limit exactly when some rule limits it, the limit is the pair of one of
   * those rules, no rule covering the port allows fewer connections per second, and it is never "no limit".
   */
  lemma LowestRateWins(policy: Policy, c: Compiled, p: u16)
    requires CompiledFor(policy, c)
    ensures p in c.rates <==> exists k :: Limits(policy, k, p)
    ensures p in c.rates ==> c.rates[p] != 0 && RateMax(c.rates[p]) >= 1 && 1 <= RateWindow(c.rates[p]) <= 3600
    ensures p in c.rates ==>
      exists k :: Limits(policy, k, p) && Pair(policy.rules[k]) == (RateMax(c.rates[p]), RateWindow(c.rates[p]))
    ensures p in c.rates ==> forall j :: Limits(policy, j, p) ==>
      NoFaster((RateMax(c.rates[p]), RateWindow(c.rates[p])), Pair(policy.rules[j]))
  {
    var rules, n := policy.rules, |policy.rules|;
    assert RateFor(rules, n, 0, c.rates, p);
    forall k ensures Limits(policy, k, p) <==> Done(rules, n, 0, k, p) && Rated(rules[k]) {
    }
    if p in c.rates {
      var k :| Slowest(rules, n, 0, p, k) && c.rates[p] == RatePack(Pair(rules[k]).0, Pair(rules[k]).1);
      RateBounds(rules[k]);
      Unpack(Pair(rules[k]).0, Pair(rules[k]).1);
      assert Limits(policy, k, p);
    }
  }

  /** The result does not depend on how the loops ran: a policy has one compiled form. */
  lemma CompiledIsUnique(policy: Policy, c: Compiled, d: Compiled)
    requires CompiledFor(policy, c) && CompiledFor(policy, d)
    ensures c == d
  {
    var rules, n := policy.rules, |policy.rules|;
    assert c.tcp == d.tcp && c.udp == d.udp && c.fromTcp == d.fromTcp && c.fromUdp == d.fromUdp;
    forall p: u16 ensures p in c.rates <==> p in d.rates
      ensures p in c.rates ==> c.rates[p] == d.rates[p]
    {
      assert RateFor(rules, n, 0, c.rates, p) && RateFor(rules, n, 0, d.rates, p);
      LowestRateWins(policy, c, p);
      LowestRateWins(policy, d, p);
    }
    assert c.rates == d.rates;
  }

  /** Reordering the rules (or repeating one) changes no opening, and no limit except between equal rates. */
  lemma RuleOrderIrrelevant(policy: Policy, policy': Policy, c: Compiled, c': Compiled)
    requires CompiledFor(policy, c) && CompiledFor(policy', c')
    requires policy'.allowTcp == policy.allowTcp && policy'.allowUdp == policy.allowUdp
    requires forall r :: r in policy.rules <==> r in policy'.rules
    ensures c'.tcp == c.tcp && c'.udp == c.udp && c'.fromTcp == c.fromTcp && c'.fromUdp == c.fromUdp
    ensures c'.rates.Keys == c.rates.Keys
    ensures forall p: u16 :: p in c.rates ==>
      RateMax(c.rates[p]) * RateWindow(c'.rates[p]) == RateMax(c'.rates[p]) * RateWindow(c.rates[p])
  {
    SameRules(policy, policy');
    assert c'.tcp == c.tcp && c'.udp == c.udp && c'.fromTcp == c.fromTcp && c'.fromUdp == c.fromUdp;
    forall p: u16 ensures p in c.rates <==> p in c'.rates
      ensures p in c.rates ==>
        RateMax(c.rates[p]) * RateWindow(c'.rates[p]) == RateMax(c'.rates[p]) * RateWindow(c.rates[p])
    {
      RateNoFasterThan(policy, policy', c, c', p);
      RateNoFasterThan(policy', policy, c', c, p);
    }
  }

  lemma RateNoFasterThan(policy: Policy, policy': Policy, c: Compiled, c': Compiled, p: u16)
    requires CompiledFor(policy, c) && CompiledFor(policy', c')
    requires forall r :: r in policy'.rules ==> r in policy.rules
    ensures p in c'.rates ==>
      p in c.rates && NoFaster((RateMax(c.rates[p]), RateWindow(c.rates[p])), (RateMax(c'.rates[p]),
          RateWindow(c'.rates[p])))
  {
    LowestRateWins(policy, c, p);
    LowestRateWins(policy', c', p);
    if p in c'.rates {
      var k' :| Limits(policy', k', p) && Pair(policy'.rules[k']) == (RateMax(c'.rates[p]), RateWindow(c'.rates[p]));
      assert policy'.rules[k'] in policy'.rules;
      var k :| 0 <= k < |policy.rules| && policy.rules[k] == policy'.rules[k'];
      assert Limits(policy, k, p);
    }
  }

  lemma SameRules(policy: Policy, policy': Policy)
    requires forall r :: r in policy.rules <==> r in policy'.rules
    ensures forall tcp: bool, p: u16 ::
      Opens(policy.rules, |policy.rules|, 0, tcp, p) <==> Opens(policy'.rules, |policy'.rules|, 0, tcp, p)
    ensures forall tcp: bool, e: (nat, RuleKey) ::
      Restricted(policy.rules, |policy.rules|, 0, tcp, e) <==> Restricted(policy'.rules, |policy'.rules|, 0, tcp, e)
  {
    forall tcp: bool, p: u16
      ensures Opens(policy.rules, |policy.rules|, 0, tcp, p) <==> Opens(policy'.rules, |policy'.rules|, 0, tcp, p)
    {
      OpensMonotone(policy.rules, policy'.rules, tcp, p);
      OpensMonotone(policy'.rules, policy.rules, tcp, p);
    }
    forall tcp: bool, e: (nat, RuleKey)
      ensures Restricted(policy.rules, |policy.rules|, 0, tcp, e) <==>
              Restricted(policy'.rules, |policy'.rules|, 0, tcp, e)
    {
      RestrictedMonotone(policy.rules, policy'.rules, tcp, e);
      RestrictedMonotone(policy'.rules, policy.rules, tcp, e);
    }
  }

  lemma OpensMonotone(rules: seq<Rule>, rules': seq<Rule>, tcp: bool, p: u16)
    requires forall r :: r in rules ==> r in rules'
    ensures Opens(rules, |rules|, 0, tcp, p) ==> Opens(rules', |rules'|, 0, tcp, p)
  {
    if k :| Done(rules, |rules|, 0, k, p) && rules[k].IsTcp() == tcp && rules[k].from.None? {
      assert rules[k] in rules;
      var k' :| 0 <= k' < |rules'| && rules'[k'] == rules[k];
      assert Done(rules', |rules'|, 0, k', p);
    }
  }

  lemma RestrictedMonotone(rules: seq<Rule>, rules': seq<Rule>, tcp: bool, e: (nat, RuleKey))
    requires forall r :: r in rules ==> r in rules'
    ensures Restricted(rules, |rules|, 0, tcp, e) ==> Restricted(rules', |rules'|, 0, tcp, e)
  {
    if k, p: u16 :|
      Done(rules, |rules|, 0, k, p) && rules[k].IsTcp() == tcp
      && rules[k].from.Some? && rules[k].FromOk() && e == RuleEntry(p, Net(rules[k]))
    {
      assert rules[k] in rules;
      var k' :| 0 <= k' < |rules'| && rules'[k'] == rules[k];
      assert Done(rules', |rules'|, 0, k', p);
    }
  }
}
