/**
 * The configuration, after TOML and text parsing: ports, rules, profiles, limits, and what validation demands
 * (config.rs).
 */
module Configuration {
  import opened Words
  import opened Wrappers
  import opened Common
  import opened Cidrs
  import opened Sorting

  /** 22, or a text such as "1714-1764" split into its two numbers (None: they are not numbers). */
  datatype PortSpec = One(port: u16) | Text(range: Option<(u16, u16)>) {
    /** It is written right: a port from 1 on, or a rising range of at most 4096 of them. */
    predicate Reads() {
      match this
      case One(q) => q >= 1
      case Text(None) => false
      case Text(Some((a, b))) => 1 <= a <= b < a + 4096
    }

    /** What is written names this port. */
    predicate Covers(p: u16) {
      match this
      case One(q) => q >= 1 && p == q
      case Text(None) => false
      case Text(Some((a, b))) => 1 <= a && b < a + 4096 && a <= p <= b
    }

    /** The first and last port of what is written. */
    function Ports(): (r: Result<(u16, u16)>)
      ensures r.Ok? <==> Reads()
      ensures r.Ok? ==> forall p: u16 :: Covers(p) <==> r.value.0 <= p <= r.value.1
      ensures r.Err? ==> forall p: u16 :: !Covers(p)
    {
      match this
      case One(p) => if p == 0 then Err(BadPort) else Ok((p, p))
      case Text(None) => Err(BadPort)
      case Text(Some((a, b))) => if a == 0 || b < a || b - a >= 4096 then Err(BadPort) else Ok((a, b))
    }
  }

  ghost predicate InSpecs(specs: seq<PortSpec>, p: u16) {
    exists i :: 0 <= i < |specs| && specs[i].Covers(p)
  }

  ghost predicate AllPortsOk(specs: seq<PortSpec>) {
    forall i :: 0 <= i < |specs| ==> specs[i].Reads()
  }

  function PortRange(a: u16, b: u16): (s: seq<u16>)
    requires a <= b
    ensures forall p :: p in s <==> a <= p <= b
    decreases b - a
  {
    if a == b then [a] else [a] + PortRange(a + 1, b)
  }

  function PortKey(p: u16): int {
    p
  }

  /** Every listed port once, in increasing order; an error when any entry is malformed. */
  method Expand(specs: seq<PortSpec>) returns (r: Result<seq<u16>>)
    ensures r.Ok? <==> AllPortsOk(specs)
    ensures r.Ok? ==> forall i, j :: 0 <= i < j < |r.value| ==> r.value[i] < r.value[j]
    ensures r.Ok? ==> forall p: u16 :: p in r.value <==> InSpecs(specs, p)
  {
    var out: seq<u16> := [];
    for i := 0 to |specs|
      invariant AllPortsOk(specs[..i])
      invariant forall p: u16 :: p in out <==> InSpecs(specs[..i], p)
    {
      var s := specs[i].Ports();
      if s.Err? {
        return Err(s.error);
      }
      forall p: u16 ensures InSpecs(specs[..i + 1], p) <==> InSpecs(specs[..i], p) || specs[i].Covers(p) {
        InSpecsSnoc(specs, i, p);
      }
      out := out + PortRange(s.value.0, s.value.1);
    }
    assert specs[..|specs|] == specs;
    SortDedup(out, PortKey);
    assert StrictlySortedBy(Dedup(Sort(out, PortKey)), PortKey);
    r := Ok(Dedup(Sort(out, PortKey)));
    forall i, j | 0 <= i < j < |r.value| ensures r.value[i] < r.value[j] {
      assert PortKey(r.value[i]) < PortKey(r.value[j]);
    }
  }

  lemma InSpecsSnoc(specs: seq<PortSpec>, i: nat, p: u16)
    requires i < |specs|
    ensures InSpecs(specs[..i + 1], p) <==> InSpecs(specs[..i], p) || specs[i].Covers(p)
  {
    assert specs[..i + 1] == specs[..i] + [specs[i]];
    if InSpecs(specs[..i], p) {
      var k :| 0 <= k < i && specs[..i][k].Covers(p);
      assert specs[..i + 1][k].Covers(p);
    }
    if specs[i].Covers(p) {
      assert specs[..i + 1][i].Covers(p);
    }
  }

  datatype Unit = Seconds | Minutes

  /** A limit such as "6/30s", split into its numbers. */
  datatype LimitText = Unreadable | Limit(count: u16, number: u32, unit: Unit) {
    /** The written window in seconds, as a release build has it: minutes are multiplied in 32 bits. */
    function Seconds(): nat
      requires Limit?
    {
      match unit
      case Seconds => number
      case Minutes => number * 60 % 0x1_0000_0000
    }

    /** At least one connection, in at least a second and at most an hour. */
    predicate Reads() {
      Limit? && count >= 1 && 1 <= Seconds() <= 3600
    }
  }

  datatype Rule = Rule(proto: string, port: PortSpec, from: Option<CidrText>, limit: Option<LimitText>) {
    /** The limit, when there is one, as connections and seconds; it is checked after minutes have been multiplied. */
    function Rate(): (r: Result<Option<(u16, u16)>>)
      ensures r.Ok? <==> limit.None? || limit.value.Reads()
      ensures r.Ok? ==> (r.value.Some? <==> limit.Some?)
      ensures r.Ok? && limit.Some? ==> r.value.value.0 == limit.value.count && r.value.value.1 == limit.value.Seconds()
    {
      match limit
      case None => Ok(None)
      case Some(Unreadable) => Err(BadLimit)
      case Some(Limit(n, number, unit)) =>
        var secs := number * (if unit == Minutes then 60 else 1) % 0x1_0000_0000;
        if n == 0 || secs == 0 || secs > 3600 then Err(BadLimit) else Ok(Some((n, secs)))
    }

    predicate IsTcp() {
      proto == "tcp"
    }

    predicate FromOk() {
      from.None? || ParseCidr(from.value).Ok?
    }

    /** The networks the rule is for: everyone, or one CIDR. */
    predicate Admits(src: Src) {
      from.None? || (src.V4? && ParseCidr(from.value).Ok? && ParseCidr(from.value).value.Contains(src.ip))
    }

    predicate Compiles() {
      FromOk() && (limit.None? || limit.value.Reads()) && port.Reads()
    }

    predicate Valid() {
      Compiles() && (proto == "tcp" || proto == "udp") && (limit.Some? ==> proto == "tcp")
    }
  }

  /** An accepted limit has a positive count and a window of one second to one hour. */
  lemma RateBounds(r: Rule)
    requires r.Rate().Ok? && r.Rate().value.Some?
    ensures 1 <= r.Rate().value.value.0 <= U16_MAX && 1 <= r.Rate().value.value.1 <= 3600
  {
  }

  /** An accepted window is the written one exactly when the written one fits in 32 bits. */
  lemma RateWindowExactIff(r: Rule)
    requires r.limit.Some? && r.limit.value.Limit? && r.Rate().Ok?
    ensures var l := r.limit.value;
      var written := l.number * (if l.unit == Minutes then 60 else 1);
      r.Rate().value.value.1 == written <==> written < 0x1_0000_0000
  {
    var l := r.limit.value;
    var written := l.number * (if l.unit == Minutes then 60 else 1);
    if written < 0x1_0000_0000 {
      DivUnique(written, 0x1_0000_0000, 0, written);
    }
  }

  /** 71582789 minutes (136 years) is read as a window of 44 seconds. */
  lemma RateWindowWraps(n: u16, port: PortSpec)
    requires n > 0
    ensures Rule("tcp", port, None, Some(Limit(n, 71582789, Minutes))).Rate() == Ok(Some((n, 44)))
  {
  }

  datatype Policy = Policy(
    profile: Option<string>,
    allowTcp: seq<PortSpec>,
    allowUdp: seq<PortSpec>,
    allowPing: bool,
    rules: seq<Rule>)
  {
    ghost predicate Compiles() {
      AllPortsOk(allowTcp) && AllPortsOk(allowUdp) && forall i :: 0 <= i < |rules| ==> rules[i].Compiles()
    }

    ghost predicate Valid() {
      AllPortsOk(allowTcp) && AllPortsOk(allowUdp) && forall i :: 0 <= i < |rules| ==> rules[i].Valid()
    }
  }

  datatype Profile = Profile(
    networks: seq<string>,
    allowTcp: Option<seq<PortSpec>>,
    allowUdp: Option<seq<PortSpec>>,
    allowPing: Option<bool>,
    rules: Option<seq<Rule>>)

  datatype NamedProfile = NamedProfile(name: string, profile: Profile)

  datatype DetectorConfig = DetectorConfig(
    windowSecs: u64, synLimit: u32, portLimit: u32, udpLimit: u32, dropLimit: u32)
  {
    predicate Valid() {
      windowSecs > 0 && synLimit > 0 && portLimit > 0 && udpLimit > 0 && dropLimit > 0
    }
  }

  datatype BanConfig = BanConfig(baseSecs: u64, maxSecs: u64, forgiveSecs: u64) {
    predicate Valid() {
      0 < baseSecs <= maxSecs
    }
  }

  function OrElse<T>(o: Option<T>, d: T): T {
    if o.Some? then o.value else d
  }

  function ParseAll(ts: seq<CidrText>): (r: Result<seq<Cidr>>)
    ensures r.Ok? <==> forall i :: 0 <= i < |ts| ==> ParseCidr(ts[i]).Ok?
    ensures r.Ok? ==> |r.value| == |ts| && forall i :: 0 <= i < |ts| ==> r.value[i] == ParseCidr(ts[i]).value
  {
    if ts == [] then Ok([])
    else
      var c :- ParseCidr(ts[0]);
      var rest :- ParseAll(ts[1..]);
      Ok([c] + rest)
  }

  function CheckSpecs(specs: seq<PortSpec>): (r: Result<()>)
    ensures r.Ok? <==> AllPortsOk(specs)
  {
    if specs == [] then Ok(())
    else
      var _ :- specs[0].Ports();
      CheckSpecs(specs[1..])
  }

  function CheckRules(rules: seq<Rule>): (r: Result<()>)
    ensures r.Ok? <==> forall i :: 0 <= i < |rules| ==> rules[i].Valid()
  {
    if rules == [] then Ok(())
    else
      var r := rules[0];
      if r.proto != "tcp" && r.proto != "udp" then Err(BadProto)
      else
        var _ :- r.port.Ports();
        if r.from.Some? && ParseCidr(r.from.value).Err? then Err(ParseCidr(r.from.value).error)
        else
          var rate :- r.Rate();
          if rate.Some? && r.proto != "tcp" then Err(LimitNeedsTcp) else CheckRules(rules[1..])
  }

  function CheckPolicy(tcp: seq<PortSpec>, udp: seq<PortSpec>, rules: seq<Rule>): (r: Result<()>)
    ensures r.Ok? <==> Policy(None, tcp, udp, true, rules).Valid()
  {
    var _ :- CheckSpecs(tcp);
    var _ :- CheckSpecs(udp);
    CheckRules(rules)
  }

  function CheckProfiles(ps: seq<NamedProfile>): (r: Result<()>)
    ensures r.Ok? <==> forall i :: 0 <= i < |ps| ==> ProfileOk(ps[i].profile)
  {
    if ps == [] then Ok(())
    else
      var p := ps[0].profile;
      var _ :- CheckPolicy(OrElse(p.allowTcp, []), OrElse(p.allowUdp, []), OrElse(p.rules, []));
      CheckProfiles(ps[1..])
  }

  ghost predicate ProfileOk(p: Profile) {
    Policy(None, OrElse(p.allowTcp, []), OrElse(p.allowUdp, []), true, OrElse(p.rules, [])).Valid()
  }

  function CheckBlocked(cs: seq<Cidr>): (r: Result<()>)
    ensures r.Ok? <==> forall i :: 0 <= i < |cs| ==> cs[i].Bits() >= 20
  {
    if cs == [] then Ok(())
    else if cs[0].Bits() < 20 then Err(BlockedTooWide)
    else CheckBlocked(cs[1..])
  }

  const KNOWN_FEEDS: seq<string> := ["spamhaus-drop", "firehol-level1"]

  datatype FeedConfig = FeedConfig(lists: seq<string>, urls: seq<string>) {
    predicate Valid() {
      && (forall i :: 0 <= i < |lists| ==> lists[i] == "spamhaus-drop" || lists[i] == "firehol-level1")
      && (forall i :: 0 <= i < |urls| ==> "https://" <= urls[i])
    }

    function Validate(): (r: Result<()>)
      ensures r.Ok? <==> Valid()
    {
      if exists i :: 0 <= i < |lists| && lists[i] !in KNOWN_FEEDS then Err(UnknownFeed)
      else if exists i :: 0 <= i < |urls| && !("https://" <= urls[i]) then Err(BadFeedUrl)
      else Ok(())
    }
  }

  datatype Config = Config(
    mode: string,
    allowTcp: seq<PortSpec>,
    allowUdp: seq<PortSpec>,
    allowPing: bool,
    udpStrict: bool,
    trusted: seq<CidrText>,
    blocked: seq<CidrText>,
    detector: DetectorConfig,
    bans: BanConfig,
    rules: seq<Rule>,
    feeds: FeedConfig,
    profiles: seq<NamedProfile>,
    notifyBans: bool,
    posture: Option<string>)
  {
    predicate Enforce() {
      mode == "enforce"
    }

    /** The first profile, in name order, that lists an active connection. */
    function ProfileFor(active: seq<string>): Option<string> {
      FirstProfile(profiles, active)
    }

    function PolicyFor(profile: Option<string>): Policy {
      var p := if profile.Some? then FindProfile(profiles, profile.value) else None;
      match p
      case None => Policy(None, allowTcp, allowUdp, allowPing, rules)
      case Some(q) =>
        Policy(profile, OrElse(q.allowTcp, allowTcp), OrElse(q.allowUdp, allowUdp),
               OrElse(q.allowPing, allowPing), OrElse(q.rules, rules))
    }

    function Validate(): (r: Result<()>)
      ensures r.Ok? <==> Valid()
    {
      if mode != "enforce" && mode != "monitor" then Err(BadMode)
      else
        var _ :- ParseAll(trusted);
        var _ :- CheckPolicy(allowTcp, allowUdp, rules);
        var _ :- CheckProfiles(profiles);
        var _ :- feeds.Validate();
        var cs :- ParseAll(blocked);
        var _ :- CheckBlocked(cs);
        if !detector.Valid() then Err(BadDetector)
        else if bans.baseSecs == 0 || bans.maxSecs < bans.baseSecs then Err(BadBans)
        else Ok(())
    }

    ghost predicate Valid() {
      && (mode == "enforce" || mode == "monitor")
      && (forall i :: 0 <= i < |trusted| ==> ParseCidr(trusted[i]).Ok?)
      && Policy(None, allowTcp, allowUdp, true, rules).Valid()
      && (forall i :: 0 <= i < |profiles| ==> ProfileOk(profiles[i].profile))
      && feeds.Valid()
      && (forall i :: 0 <= i < |blocked| ==> ParseCidr(blocked[i]).Ok? && ParseCidr(blocked[i]).value.Bits() >= 20)
      && detector.Valid() && bans.Valid()
    }
  }

  predicate Lists(p: NamedProfile, active: seq<string>) {
    exists n :: n in p.profile.networks && n in active
  }

  function FirstProfile(ps: seq<NamedProfile>, active: seq<string>): Option<string> {
    if ps == [] then None
    else if Lists(ps[0], active) then Some(ps[0].name)
    else FirstProfile(ps[1..], active)
  }

  /** The order of names, character by character. */
  predicate NameBefore(a: string, b: string) {
    b != "" && (a == "" || a[0] < b[0] || (a[0] == b[0] && NameBefore(a[1..], b[1..])))
  }

  /** How the profiles come out of the configuration's map: by name, each once. */
  predicate InNameOrder(ps: seq<NamedProfile>) {
    forall i, j :: 0 <= i < j < |ps| ==> NameBefore(ps[i].name, ps[j].name)
  }

  lemma {:induction false} NotBeforeItself(a: string)
    ensures !NameBefore(a, a)
  {
    if a != "" {
      NotBeforeItself(a[1..]);
    }
  }

  /** The profile chosen is the lowest by name of those listing an active connection; none when there is none. */
  lemma {:induction false} FirstIsLowest(ps: seq<NamedProfile>, active: seq<string>, i: nat)
    requires InNameOrder(ps) && i < |ps| && Lists(ps[i], active)
    ensures FirstProfile(ps, active).Some?
    ensures FirstProfile(ps, active) == Some(ps[i].name) || NameBefore(FirstProfile(ps, active).value, ps[i].name)
    ensures exists k :: 0 <= k <= i && Lists(ps[k], active) && FirstProfile(ps, active) == Some(ps[k].name)
  {
    if !Lists(ps[0], active) {
      assert forall j, k :: 0 <= j < k < |ps[1..]| ==> ps[1..][j] == ps[j + 1] && ps[1..][k] == ps[k + 1];
      FirstIsLowest(ps[1..], active, i - 1);
      var k :| 0 <= k <= i - 1 && Lists(ps[1..][k], active) && FirstProfile(ps[1..], active) == Some(ps[1..][k].name);
      assert Lists(ps[k + 1], active);
    }
  }

  lemma {:induction false} NeverBothBefore(a: string, b: string)
    ensures !(NameBefore(a, b) && NameBefore(b, a))
  {
    if a != "" && b != "" {
      NeverBothBefore(a[1..], b[1..]);
    }
  }

  lemma {:induction false} FirstLists(ps: seq<NamedProfile>, active: seq<string>)
    requires FirstProfile(ps, active).Some?
    ensures exists k :: 0 <= k < |ps| && Lists(ps[k], active) && FirstProfile(ps, active) == Some(ps[k].name)
  {
    if !Lists(ps[0], active) {
      FirstLists(ps[1..], active);
      var k :| 0 <= k < |ps[1..]| && Lists(ps[1..][k], active)
          && FirstProfile(ps[1..], active) == Some(ps[1..][k].name);
      assert Lists(ps[k + 1], active);
    }
  }

  /** Exactly: a profile is chosen when it lists an active connection and every other that does comes later by name. */
  lemma ChosenIffLowest(ps: seq<NamedProfile>, active: seq<string>, i: nat)
    requires InNameOrder(ps) && i < |ps|
    ensures FirstProfile(ps, active) == Some(ps[i].name) <==>
      Lists(ps[i], active)
      && forall j :: 0 <= j < |ps| && j != i && Lists(ps[j], active) ==> NameBefore(ps[i].name, ps[j].name)
  {
    NotBeforeItself(ps[i].name);
    if FirstProfile(ps, active) == Some(ps[i].name) {
      FirstLists(ps, active);
      var k :| 0 <= k < |ps| && Lists(ps[k], active) && ps[k].name == ps[i].name;
      assert k == i;
      forall j | 0 <= j < |ps| && j != i && Lists(ps[j], active) ensures NameBefore(ps[i].name, ps[j].name) {
        FirstIsLowest(ps, active, j);
      }
    } else if Lists(ps[i], active) {
      FirstIsLowest(ps, active, i);
      var k :| 0 <= k <= i && Lists(ps[k], active) && FirstProfile(ps, active) == Some(ps[k].name);
      NeverBothBefore(ps[i].name, ps[k].name);
    }
  }

  /** A profile is found under its own name, whatever others there are. */
  lemma {:induction false} FoundByName(ps: seq<NamedProfile>, i: nat)
    requires InNameOrder(ps) && i < |ps|
    ensures FindProfile(ps, ps[i].name) == Some(ps[i].profile)
  {
    NotBeforeItself(ps[i].name);
    if i > 0 {
      assert forall j, k :: 0 <= j < k < |ps[1..]| ==> ps[1..][j] == ps[j + 1] && ps[1..][k] == ps[k + 1];
      FoundByName(ps[1..], i - 1);
    }
  }

  function FindProfile(ps: seq<NamedProfile>, name: string): (r: Option<Profile>)
    ensures r.Some? ==> exists i :: 0 <= i < |ps| && ps[i].profile == r.value
  {
    if ps == [] then None
    else if ps[0].name == name then Some(ps[0].profile)
    else FindProfile(ps[1..], name)
  }

  /**
   * The profile that decides: the lowest by name that lists an active connection. Each of its settings holds in place
   * of the configuration's own, and where it has none the configuration's does.
   */
  lemma ActiveProfileDecides(c: Config, active: seq<string>, i: nat)
    requires InNameOrder(c.profiles) && i < |c.profiles|
    requires exists n :: n in c.profiles[i].profile.networks && n in active
    requires forall j, n :: 0 <= j < |c.profiles| && n in c.profiles[j].profile.networks && n in active ==>
      j == i || NameBefore(c.profiles[i].name, c.profiles[j].name)
    ensures var (own, policy) := (c.profiles[i].profile, c.PolicyFor(c.ProfileFor(active)));
      && (own.allowTcp.Some? ==> policy.allowTcp == own.allowTcp.value)
      && (own.allowTcp.None? ==> policy.allowTcp == c.allowTcp)
      && (own.allowUdp.Some? ==> policy.allowUdp == own.allowUdp.value)
      && (own.allowUdp.None? ==> policy.allowUdp == c.allowUdp)
      && (own.allowPing.Some? ==> policy.allowPing == own.allowPing.value)
      && (own.allowPing.None? ==> policy.allowPing == c.allowPing)
      && (own.rules.Some? ==> policy.rules == own.rules.value)
      && (own.rules.None? ==> policy.rules == c.rules)
  {
    ChosenIffLowest(c.profiles, active, i);
    FoundByName(c.profiles, i);
  }

  /** When no profile lists one, the configuration's own settings hold. */
  lemma NoProfileDecides(c: Config, active: seq<string>)
    requires forall j, n :: 0 <= j < |c.profiles| && n in c.profiles[j].profile.networks ==> n !in active
    ensures var policy := c.PolicyFor(c.ProfileFor(active));
      && policy.allowTcp == c.allowTcp && policy.allowUdp == c.allowUdp
      && policy.allowPing == c.allowPing && policy.rules == c.rules
  {
    if c.ProfileFor(active).Some? {
      FirstLists(c.profiles, active);
    }
  }

  /** A valid configuration gives a valid policy under every profile name, known or not. */
  lemma ValidPolicies(c: Config, profile: Option<string>)
    requires c.Valid()
    ensures c.PolicyFor(profile).Valid() && c.PolicyFor(profile).Compiles()
  {
  }
}
