/** Connection limits from the rule as written to the packets it lets in, over whole runs. */
module LimitRuns {
  import opened Words
  import opened Wrappers
  import opened Common
  import opened Configuration
  import opened Compiler
  import opened RateLimiter
  import opened XdpFilter
  import opened RateRuns
  import opened Loader

  /** Rule `k` limits the port, to `max` connections in `secs` seconds. */
  predicate Writes(policy: Policy, k: int, port: u16, max: nat, secs: nat) {
    && 0 <= k < |policy.rules| && policy.rules[k].port.Covers(port)
    && policy.rules[k].limit.Some? && policy.rules[k].limit.value.Reads()
    && max == policy.rules[k].limit.value.count && secs == policy.rules[k].limit.value.Seconds()
  }

  /** No limit written for the port allows fewer connections a second. */
  ghost predicate NoneSlower(policy: Policy, port: u16, max: nat, secs: nat) {
    forall j: int, m: nat, s: nat :: Writes(policy, j, port, m, s) ==> max * s <= m * secs
  }

  ghost predicate Limited(policy: Policy, port: u16) {
    exists j: int, m: nat, s: nat :: Writes(policy, j, port, m, s)
  }

  lemma WritesIsPair(policy: Policy, k: int, port: u16, max: nat, secs: nat)
    ensures Writes(policy, k, port, max, secs) <==>
      Limits(policy, k, port) && Pair(policy.rules[k]).0 == max && Pair(policy.rules[k]).1 == secs
  {
  }

  /** Of the limits written for a port one is in force, the slowest, and it is what the kernel is given. */
  lemma LimitInForce(policy: Policy, c: Compiled, port: u16) returns (k: int, packed: u32)
    requires policy.Compiles() && CompiledFor(policy, c) && Limited(policy, port)
    ensures packed != 0 && RateMax(packed) >= 1 && port in c.rates && c.rates[port] == packed
    ensures Writes(policy, k, port, RateMax(packed), RateWindow(packed))
    ensures NoneSlower(policy, port, RateMax(packed), RateWindow(packed))
  {
    hide CompiledFor, RateMax, RateWindow, Writes, Pair, Rated, PortSpec.Covers;
    LowestRateWins(policy, c, port);
    var j: int, m: nat, s: nat :| Writes(policy, j, port, m, s);
    WritesIsPair(policy, j, port, m, s);
    packed := c.rates[port];
    k :| Limits(policy, k, port) && Pair(policy.rules[k]) == (RateMax(packed), RateWindow(packed));
    WritesIsPair(policy, k, port, RateMax(packed), RateWindow(packed));
    forall i: int, n: nat, t: nat | Writes(policy, i, port, n, t)
      ensures RateMax(packed) * t <= n * RateWindow(packed)
    {
      WritesIsPair(policy, i, port, n, t);
      assert NoFaster((RateMax(packed), RateWindow(packed)), Pair(policy.rules[i]));
    }
  }

  /** From step `i` to `j` the policy's maps are in force and enforced, and this source's count is not forgotten. */
  ghost predicate Enforced(steps: seq<Step>, i: nat, j: nat, c: Compiled, ip: u32, port: u16) {
    && i <= j <= |steps|
    && forall k :: i <= k < j && steps[k].In? ==>
         && RateKey(ip, port) !in steps[k].forgetsRates
         && (IsOpener(steps[k], ip, port) ==> steps[k].rules.enforce && Holds(steps[k].rules, c))
  }

  lemma EnforcedIsSteady(steps: seq<Step>, i: nat, j: nat, c: Compiled, ip: u32, port: u16, packed: u32)
    requires Enforced(steps, i, j, c, ip, port) && port in c.rates && c.rates[port] == packed
    requires packed != 0 && RateMax(packed) >= 1
    ensures SteadyLimit(steps, i, j, ip, port, packed)
  {
    forall k | i <= k < j && steps[k].In? && IsOpener(steps[k], ip, port)
      ensures Slot(steps[k].rules.tcpRate, port, 0) == packed
    {
      assert RatesAre(steps[k].rules.tcpRate, c.rates);
    }
  }

  /**
   * "6/30s" as written: in any stretch of any run no longer than the seconds of the limit in force, fewer than twice
   * its connections get in from one source.
   */
  lemma WrittenLimitBounds(policy: Policy, c: Compiled, steps: seq<Step>, i: nat, j: nat, ip: u32, port: u16)
    returns (k: int, max: nat, secs: nat)
    requires policy.Compiles() && CompiledFor(policy, c) && Limited(policy, port)
    requires i < j && Enforced(steps, i, j, c, ip, port) && StepsOrdered(steps) && NeverWraps(steps, i, j, ip, port)
    ensures Writes(policy, k, port, max, secs) && NoneSlower(policy, port, max, secs)
    ensures steps[j - 1].now - steps[i].now <= secs * 1_000_000_000 ==>
      CountPassed(steps, i, j, ip, port) <= 2 * max - 1
  {
    hide CompiledFor, Writes, NoneSlower, Enforced, SteadyLimit, NeverWraps, CountPassed;
    var packed;
    k, packed := LimitInForce(policy, c, port);
    max, secs := RateMax(packed), RateWindow(packed);
    EnforcedIsSteady(steps, i, j, c, ip, port, packed);
    if steps[j - 1].now - steps[i].now <= secs * 1_000_000_000 {
      PassedOpenersBounded(steps, i, j, ip, port, packed);
    }
  }

  lemma {:induction false} OneWindowFrom(times: seq<u64>, window: nat, k: nat)
    requires Ordered(times) && k < |times| && times[k] - times[0] <= window
    ensures WindowStart(times, window, k) == 0
  {
    if k > 0 {
      OneWindowFrom(times, window, k - 1);
    }
  }

  /** The openers that reached the limiter in a stretch, all within so many seconds of the first. */
  ghost predicate Within(steps: seq<Step>, i: nat, j: nat, ip: u32, port: u16, secs: nat)
    requires i <= j <= |steps|
  {
    var times := ReachTimes(steps, i, j, ip, port);
    0 < |times| < 0x1_0000_0000 && times[|times| - 1] - times[0] <= secs * 1_000_000_000
  }

  lemma FirstOnesAdmitted(times: seq<u64>, max: nat, window: nat)
    requires Ordered(times) && 0 < |times| < 0x1_0000_0000 && max >= 1 && times[|times| - 1] - times[0] <= window
    ensures Admitted(times, max, window, |times| - 1) <==> |times| <= max
  {
    OneWindowFrom(times, window, |times| - 1);
    FirstMaxAdmitted(times, max, window, |times| - 1);
  }

  lemma NothingHeld(steps: seq<Step>, i: nat, j: nat, ip: u32, port: u16)
    requires i <= j <= |steps| && StateBefore(steps, i, ip, port) == None
    ensures Openers(steps, i, j, ip, port) == ReachTimes(steps, i, j, ip, port)
  {
  }

  /**
   * And exactly: when the kernel held nothing of the source, of the openers that come within those seconds of the first
   * one, the first `max` pass and every other is turned away.
   */
  lemma WrittenLimitExact(policy: Policy, c: Compiled, steps: seq<Step>, i: nat, q: nat, ip: u32, port: u16)
    returns (k: int, max: nat, secs: nat)
    requires policy.Compiles() && CompiledFor(policy, c) && Limited(policy, port)
    requires i <= q && Enforced(steps, i, q + 1, c, ip, port) && StepsOrdered(steps)
    requires StateBefore(steps, i, ip, port) == None && Reaches(steps[q], ip, port)
    ensures Writes(policy, k, port, max, secs) && NoneSlower(policy, port, max, secs)
    ensures Within(steps, i, q + 1, ip, port, secs) ==>
      (PassedOpener(steps, q, ip, port) <==> |ReachTimes(steps, i, q + 1, ip, port)| <= max)
  {
    hide CompiledFor, Writes, NoneSlower, Enforced, SteadyLimit, PassedOpener, StateBefore, ReachTimes, Reaches;
    var packed;
    k, packed := LimitInForce(policy, c, port);
    max, secs := RateMax(packed), RateWindow(packed);
    EnforcedIsSteady(steps, i, q + 1, c, ip, port, packed);
    if Within(steps, i, q + 1, ip, port, secs) {
      var times := ReachTimes(steps, i, q + 1, ip, port);
      NothingHeld(steps, i, q + 1, ip, port);
      ReachTimesOrdered(steps, i, q + 1, ip, port);
      PassedIffAdmitted(steps, i, q, ip, port, packed);
      FirstOnesAdmitted(times, max, secs * 1_000_000_000);
    }
  }
}
