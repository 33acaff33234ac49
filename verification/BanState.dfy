/** Ban expiries, ban records and the kernel blocklist as one list of sources (state.rs). */
module BanStates {
  import opened Words
  import opened Wrappers
  import opened Collections
  import opened Common
  import opened Detectors
  import opened UdpFlows

  const V4_ENTRIES: nat := 65536
  const V6_ENTRIES: nat := 16384

  /** Kernel expiry for a ban of `secs` seconds set at `boot` ns; the sum is taken in 64 bits. */
  function ExpiryFor(secs: nat, boot: u64): u64 {
    if secs == 0 then BAN_FOREVER else (boot + secs * NS_PER_SEC) % 0x1_0000_0000_0000_0000
  }

  function CeilDiv(a: nat, b: int): nat
    requires b > 0
  {
    DivShrinks(a + b - 1, b);
    (a + b - 1) / b
  }

  /** Seconds left on an expiry: None when over, Some(0) when it never ends. */
  function Remaining(expiry: u64, boot: u64): Option<nat> {
    if expiry == BAN_FOREVER then Some(0)
    else if expiry > boot then Some(CeilDiv(expiry - boot, NS_PER_SEC))
    else None
  }

  lemma CeilBounds(a: nat, b: int)
    requires b > 0
    ensures CeilDiv(a, b) * b - b < a <= CeilDiv(a, b) * b
    ensures a > 0 ==> CeilDiv(a, b) >= 1
  {
    var q := CeilDiv(a, b);
    assert a + b - 1 == q * b + (a + b - 1) % b;
    assert q == 0 ==> q * b == 0;
  }

  /** The expiry is the instant asked for exactly when that instant is before 2^64 ns. */
  lemma ExpiryExactIff(secs: nat, boot: u64)
    requires secs > 0
    ensures ExpiryFor(secs, boot) == boot + secs * NS_PER_SEC <==> boot + secs * NS_PER_SEC < 0x1_0000_0000_0000_0000
  {
    var e: int := boot + secs * NS_PER_SEC;
    assert e >= 0;
    if e < 0x1_0000_0000_0000_0000 {
      DivUnique(e, 0x1_0000_0000_0000_0000, 0, e);
    }
  }

  /** A ban of 18446744074 s (584 years) asked for a second after boot ends within the following half second. */
  lemma HugeBanIsShort()
    ensures ExpiryFor(18446744074, 1_000_000_000) == 1_290_448_384
  {
  }

  /** What userspace calls over is what the kernel no longer drops. */
  lemma RemainingIsLive(m: map<Src, u64>, x: Src, boot: u64)
    ensures Live(m, x, boot) <==> x in m && Remaining(m[x], boot).Some?
  {
  }

  datatype Cause = ByHand | InConfig | Detected(reason: Reason, ports: PortSummary)

  datatype BanRecord = BanRecord(cause: Cause, source: string, strikes: nat)

  const MANUAL: BanRecord := BanRecord(ByHand, "manual", 0)
  const CONFIGURED: BanRecord := BanRecord(InConfig, "config", 0)

  function V4Part(bans: map<Src, u64>): set<Src> {
    set x | x in bans && x.V4?
  }

  function V6Part(bans: map<Src, u64>): set<Src> {
    set x | x in bans && x.V6?
  }

  /** The kernel map of the source's family exists and takes it: known already, or room left. */
  predicate Fits(bans: map<Src, u64>, hasV6: bool, x: Src) {
    match x
    case V4(_) => x in bans || |V4Part(bans)| < 65536
    case V6(_) => hasV6 && (x in bans || |V6Part(bans)| < 16384)
  }

  /** The two kernel maps within their capacities. */
  predicate Bounded(bans: map<Src, u64>) {
    |V4Part(bans)| <= V4_ENTRIES && |V6Part(bans)| <= V6_ENTRIES
  }

  lemma FitsKeepsBounded(bans: map<Src, u64>, hasV6: bool, x: Src, expiry: u64)
    requires Bounded(bans) && Fits(bans, hasV6, x)
    ensures Bounded(bans[x := expiry])
  {
    var more := bans[x := expiry];
    assert V4Part(more) == if x.V4? then V4Part(bans) + {x} else V4Part(bans);
    assert V6Part(more) == if x.V6? then V6Part(bans) + {x} else V6Part(bans);
  }

  lemma FewerStayBounded(bans: map<Src, u64>, fewer: map<Src, u64>)
    requires Bounded(bans) && fewer.Keys <= bans.Keys
    ensures Bounded(fewer)
  {
    SubsetCard(V4Part(fewer), V4Part(bans));
    SubsetCard(V6Part(fewer), V6Part(bans));
  }

  class Blocklist {
    var bans: map<Src, u64>
    const hasV6: bool

    /** Over the pinned kernel maps, with whatever bans a previous daemon or the command line left there. */
    constructor (bans: map<Src, u64>, hasV6: bool)
      requires Bounded(bans)
      ensures this.bans == bans && this.hasV6 == hasV6 && Valid()
    {
      this.bans, this.hasV6 := bans, hasV6;
    }

    predicate Valid()
      reads this
    {
      Bounded(bans)
    }

    method Insert(x: Src, expiry: u64) returns (r: Result<()>)
      requires Valid()
      modifies this`bans
      ensures Valid()
      ensures r.Ok? <==> Fits(old(bans), hasV6, x)
      ensures bans == if r.Ok? then old(bans)[x := expiry] else old(bans)
    {
      match x {
        case V4(_) =>
          if x !in bans && |V4Part(bans)| >= V4_ENTRIES {
            return Err(MapFull);
          }
        case V6(_) =>
          if !hasV6 {
            return Err(NoV6Map);
          }
          if x !in bans && |V6Part(bans)| >= V6_ENTRIES {
            return Err(MapFull);
          }
      }
      FitsKeepsBounded(bans, hasV6, x, expiry);
      bans := bans[x := expiry];
      r := Ok(());
    }

    method Remove(x: Src)
      requires Valid()
      modifies this`bans
      ensures Valid() && bans == old(bans) - {x}
    {
      FewerStayBounded(bans, bans - {x});
      bans := bans - {x};
    }
  }
}
