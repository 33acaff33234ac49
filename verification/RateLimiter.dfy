/**
 * The per-source limit on new TCP connections (eBPF `over_rate`): a fixed window that opens with a connection and
 * a 32-bit count of the connections since.
 */
module RateLimiter {
  import opened Words
  import opened Wrappers

  datatype RateState = RateState(windowStart: u64, count: u32)

  /** One opener at time `t`: the new state, and whether it goes over the limit. */
  function Bump(st: Option<RateState>, max: nat, window: nat, t: u64): (RateState, bool) {
    match st
    case None => (RateState(t, 1), false)
    case Some(s) =>
      if WrapSub64(t, s.windowStart) > window then (RateState(t, 1), false)
      else
        var count := WrapInc32(s.count);
        (RateState(s.windowStart, count), count > max)
  }

  /** The state a source's openers leave behind; it does not depend on the limit. */
  function After(times: seq<u64>, window: nat): Option<RateState> {
    if times == [] then None
    else Some(Bump(After(times[..|times| - 1], window), 0, window, times[|times| - 1]).0)
  }

  /** Opener `i` is let in. */
  predicate Admitted(times: seq<u64>, max: nat, window: nat, i: nat)
    requires i < |times|
  {
    !Bump(After(times[..i], window), max, window, times[i]).1
  }

  ghost predicate Ordered(times: seq<u64>) {
    forall i, j :: 0 <= i <= j < |times| ==> times[i] <= times[j]
  }

  /** The opener that began the window opener `i` falls in: a window closes `window` after its first opener. */
  function WindowStart(times: seq<u64>, window: nat, i: nat): (s: nat)
    requires i < |times|
    ensures s <= i
  {
    if i == 0 then 0
    else
      var s := WindowStart(times, window, i - 1);
      if times[i] - times[s] > window then i else s
  }

  /** Which opener of its window an opener is, from 1. */
  function Place(times: seq<u64>, window: nat, i: nat): (n: nat)
    requires i < |times|
    ensures 1 <= n <= i + 1
  {
    i - WindowStart(times, window, i) + 1
  }

  lemma AfterSnoc(times: seq<u64>, window: nat, i: nat)
    requires i < |times|
    ensures After(times[..i + 1], window) == Some(Bump(After(times[..i], window), 0, window, times[i]).0)
  {
    var s := times[..i + 1];
    assert s[..|s| - 1] == times[..i];
  }

  lemma BumpKeepsOrOpens(s: RateState, window: nat, t: u64, n: nat)
    requires s.windowStart <= t && s.count == n % 0x1_0000_0000
    ensures Bump(Some(s), 0, window, t).0 ==
      if t - s.windowStart > window then RateState(t, 1) else RateState(s.windowStart, (n + 1) % 0x1_0000_0000)
  {
    WrapAddOne(n);
  }

  lemma FirstAfter(times: seq<u64>, window: nat)
    requires |times| > 0
    ensures After(times[..1], window) == Some(RateState(times[0], 1))
  {
    AfterSnoc(times, window, 0);
    assert times[..0] == [];
  }

  function StateAt(times: seq<u64>, i: nat, s: nat): RateState
    requires s <= i < |times|
  {
    RateState(times[s], (i - s + 1) % 0x1_0000_0000)
  }

  lemma NextAfter(times: seq<u64>, window: nat, i: nat, s: nat)
    requires 0 < i < |times| && s < i && times[s] <= times[i]
    requires After(times[..i], window) == Some(StateAt(times, i - 1, s))
    ensures After(times[..i + 1], window) == Some(StateAt(times, i, if times[i] - times[s] > window then i else s))
  {
    AfterSnoc(times, window, i);
    BumpKeepsOrOpens(StateAt(times, i - 1, s), window, times[i], i - s);
  }

  lemma {:induction false} AfterIs(times: seq<u64>, window: nat, i: nat)
    requires Ordered(times) && i < |times|
    ensures var s := WindowStart(times, window, i);
      After(times[..i + 1], window) == Some(StateAt(times, i, s))
  {
    if i == 0 {
      FirstAfter(times, window);
    } else {
      AfterIs(times, window, i - 1);
      NextAfter(times, window, i, WindowStart(times, window, i - 1));
    }
  }

  lemma WrapAddOne(n: nat)
    ensures WrapInc32(n % 0x1_0000_0000) == (n + 1) % 0x1_0000_0000
  {
  }

  lemma BumpAdmitsIff(s: RateState, max: nat, window: nat, t: u64, n: nat)
    requires s.windowStart <= t && s.count == n % 0x1_0000_0000 && max >= 1
    ensures !Bump(Some(s), max, window, t).1 <==>
            (if t - s.windowStart > window then 1 else n + 1) % 0x1_0000_0000 <= max
  {
    WrapAddOne(n);
  }

  lemma AdmittedGiven(times: seq<u64>, max: nat, window: nat, i: nat, s: RateState)
    requires i < |times| && After(times[..i], window) == Some(s)
    ensures Admitted(times, max, window, i) <==> !Bump(Some(s), max, window, times[i]).1
  {
  }

  lemma FirstAdmitted(times: seq<u64>, max: nat, window: nat)
    requires |times| > 0
    ensures Admitted(times, max, window, 0)
  {
    assert times[..0] == [];
  }

  lemma LaterAdmittedIff(times: seq<u64>, max: nat, window: nat, i: nat, s: nat)
    requires Ordered(times) && 0 < i < |times| && max >= 1 && s == WindowStart(times, window, i - 1)
    ensures Admitted(times, max, window, i) <==>
            (if times[i] - times[s] > window then 1 else i - s + 1) % 0x1_0000_0000 <= max
  {
    var st := RateState(times[s], (i - s) % 0x1_0000_0000);
    AfterIs(times, window, i - 1);
    AdmittedGiven(times, max, window, i, st);
    BumpAdmitsIff(st, max, window, times[i], i - s);
  }

  /** Opener number n of its window is admitted exactly when n, wrapped to 32 bits, is at most `max`. */
  lemma AdmittedIff(times: seq<u64>, max: nat, window: nat, i: nat)
    requires Ordered(times) && i < |times| && max >= 1
    ensures Admitted(times, max, window, i) <==>
            Place(times, window, i) % 0x1_0000_0000 <= max
  {
    if i == 0 {
      FirstAdmitted(times, max, window);
    } else {
      LaterAdmittedIff(times, max, window, i, WindowStart(times, window, i - 1));
    }
  }

  /** Short of 2^32 openers a window admits exactly its first `max`. */
  lemma FirstMaxAdmitted(times: seq<u64>, max: nat, window: nat, i: nat)
    requires Ordered(times) && i < |times| && max >= 1
    requires Place(times, window, i) < 0x1_0000_0000
    ensures Admitted(times, max, window, i) <==> Place(times, window, i) <= max
  {
    AdmittedIff(times, max, window, i);
  }

  /** Opener 2^32 of a window is let in again whatever the limit: the count wraps to 0. */
  lemma CountWraps(times: seq<u64>, max: nat, window: nat, i: nat)
    requires Ordered(times) && i < |times| && max >= 1
    requires Place(times, window, i) == 0x1_0000_0000
    ensures Admitted(times, max, window, i)
  {
    AdmittedIff(times, max, window, i);
  }

  function AllAt(n: nat, t: u64): seq<u64> {
    seq(n, _ => t)
  }

  lemma {:induction false} AllInOneWindow(n: nat, t: u64, window: nat, k: nat)
    requires k < n
    ensures WindowStart(AllAt(n, t), window, k) == 0
  {
    if k > 0 {
      AllInOneWindow(n, t, window, k - 1);
    }
  }

  /** For one: of 2^32 openers at one instant the last is let in and, under any limit in use, the one before is not. */
  lemma WrapReached(t: u64, max: nat, window: nat)
    requires 1 <= max <= U16_MAX
    ensures Admitted(AllAt(0x1_0000_0000, t), max, window, U32_MAX)
    ensures !Admitted(AllAt(0x1_0000_0000, t), max, window, U32_MAX - 1)
  {
    AllInOneWindow(0x1_0000_0000, t, window, U32_MAX);
    AllInOneWindow(0x1_0000_0000, t, window, U32_MAX - 1);
    CountWraps(AllAt(0x1_0000_0000, t), max, window, U32_MAX);
    FirstMaxAdmitted(AllAt(0x1_0000_0000, t), max, window, U32_MAX - 1);
  }

  /** No window of the run has 2^32 openers. */
  ghost predicate Unwrapped(times: seq<u64>, window: nat) {
    forall k :: 0 <= k < |times| ==> Place(times, window, k) < 0x1_0000_0000
  }

  /** How many of the openers i .. j-1 are admitted. */
  function CountAdmitted(times: seq<u64>, max: nat, window: nat, i: nat, j: nat): nat
    requires i <= j <= |times|
    decreases j
  {
    if i == j then 0
    else CountAdmitted(times, max, window, i, j - 1) + (if Admitted(times, max, window, j - 1) then 1 else 0)
  }

  lemma {:induction false} WindowStartMonotone(times: seq<u64>, window: nat, i: nat, j: nat)
    requires Ordered(times) && i <= j < |times|
    ensures var a, b := WindowStart(times, window, i), WindowStart(times, window, j);
      a == b || (i < b && times[b] > times[a] + window)
    decreases j
  {
    if i < j {
      var a, b, c := WindowStart(times, window, i), WindowStart(times, window, j), WindowStart(times, window, j - 1);
      WindowStartMonotone(times, window, i, j - 1);
      assert b == c || (b == j && times[j] > times[c] + window);
      assert times[a] <= times[c];
    }
  }

  /** How many of the openers i .. j-1 are among the first `max` of their window. */
  function CountFirst(times: seq<u64>, max: nat, window: nat, i: nat, j: nat): nat
    requires i <= j <= |times|
    decreases j
  {
    if i == j then 0
    else CountFirst(times, max, window, i, j - 1) + (if Place(times, window, j - 1) <= max then 1 else 0)
  }

  lemma {:induction false} AdmittedAreFirst(times: seq<u64>, max: nat, window: nat, i: nat, j: nat)
    requires Ordered(times) && Unwrapped(times, window) && i <= j <= |times| && max >= 1
    ensures CountAdmitted(times, max, window, i, j) == CountFirst(times, max, window, i, j)
    decreases j
  {
    if i < j {
      AdmittedAreFirst(times, max, window, i, j - 1);
      FirstMaxAdmitted(times, max, window, j - 1);
    }
  }

  /** Openers i .. j-1 all fall in the window that began at `a`. */
  ghost predicate OneWindow(times: seq<u64>, window: nat, i: nat, j: nat, a: nat)
    requires j <= |times|
  {
    a <= i && forall k :: i <= k < j ==> WindowStart(times, window, k) == a
  }

  lemma {:induction false} OneWindowCount(times: seq<u64>, max: nat, window: nat, i: nat, j: nat, a: nat)
    requires i <= j <= |times| && OneWindow(times, window, i, j, a)
    ensures CountFirst(times, max, window, i, j) == Max(0, Min(j, a + max) - i)
    decreases j
  {
    if i < j {
      OneWindowCount(times, max, window, i, j - 1, a);
      assert WindowStart(times, window, j - 1) == a;
    }
  }

  lemma {:induction false} CountSplits(times: seq<u64>, max: nat, window: nat, i: nat, m: nat, j: nat)
    requires i <= m <= j <= |times|
    ensures CountFirst(times, max, window, i, j) ==
            CountFirst(times, max, window, i, m) + CountFirst(times, max, window, m, j)
    decreases j
  {
    if m < j {
      CountSplits(times, max, window, i, m, j - 1);
    }
  }

  /** An opener between two no further apart than a window falls in the window of one of them. */
  lemma InOneOfTwo(times: seq<u64>, window: nat, i: nat, k: nat, j: nat)
    requires Ordered(times) && i <= k < j <= |times| && times[j - 1] - times[i] <= window
    ensures var (a, b) := (WindowStart(times, window, i), WindowStart(times, window, j - 1));
      (a == b || a < i < b) && WindowStart(times, window, k) == if k < b then a else b
  {
    hide WindowStart;
    WindowStartMonotone(times, window, i, j - 1);
    WindowStartMonotone(times, window, i, k);
    WindowStartMonotone(times, window, k, j - 1);
    var c := WindowStart(times, window, k);
    assert i < c ==> times[c] >= times[i];
  }

  /** An interval no longer than a window meets one limiter window, or two of which the later began inside it. */
  lemma TwoWindows(times: seq<u64>, window: nat, i: nat, j: nat)
    requires Ordered(times) && i < j <= |times| && times[j - 1] - times[i] <= window
    ensures var (a, b) := (WindowStart(times, window, i), WindowStart(times, window, j - 1));
      if a == b then OneWindow(times, window, i, j, a)
      else a < i < b < j && OneWindow(times, window, i, b, a) && OneWindow(times, window, b, j, b)
  {
    var a, b := WindowStart(times, window, i), WindowStart(times, window, j - 1);
    InOneOfTwo(times, window, i, i, j);
    forall k | i <= k < j ensures WindowStart(times, window, k) == if k < b then a else b {
      InOneOfTwo(times, window, i, k, j);
    }
  }

  /** What an interval met by the windows begun at `a` and `b` lets in: the rest of `a`'s share, and `b`'s. */
  function Share(max: nat, a: nat, b: nat, i: nat, j: nat): int {
    if a == b then Max(0, Min(j, a + max) - i) else Max(0, Min(b, a + max) - i) + Min(j - b, max)
  }

  lemma FirstCount(times: seq<u64>, max: nat, window: nat, i: nat, j: nat)
    requires Ordered(times) && i < j <= |times| && times[j - 1] - times[i] <= window
    ensures CountFirst(times, max, window, i, j) ==
            Share(max, WindowStart(times, window, i), WindowStart(times, window, j - 1), i, j)
  {
    var a, b := WindowStart(times, window, i), WindowStart(times, window, j - 1);
    TwoWindows(times, window, i, j);
    if a == b {
      OneWindowCount(times, max, window, i, j, a);
    } else {
      CountSplits(times, max, window, i, b, j);
      OneWindowCount(times, max, window, i, b, a);
      OneWindowCount(times, max, window, b, j, b);
    }
  }

  /** Exactly how many openers a closed interval no longer than a window lets in, whatever the traffic around it. */
  lemma IntervalCount(times: seq<u64>, max: nat, window: nat, i: nat, j: nat)
    requires Ordered(times) && Unwrapped(times, window) && i < j <= |times| && max >= 1
    requires times[j - 1] - times[i] <= window
    ensures CountAdmitted(times, max, window, i, j) ==
            Share(max, WindowStart(times, window, i), WindowStart(times, window, j - 1), i, j)
  {
    AdmittedAreFirst(times, max, window, i, j);
    FirstCount(times, max, window, i, j);
  }

  /**
   * The interval stays within the limit exactly when no window begins in it, or what two windows let in adds up to it.
   */
  lemma IntervalWithinMaxIff(times: seq<u64>, max: nat, window: nat, i: nat, j: nat)
    requires Ordered(times) && Unwrapped(times, window) && i < j <= |times| && max >= 1
    requires times[j - 1] - times[i] <= window
    ensures var (a, b) := (WindowStart(times, window, i), WindowStart(times, window, j - 1));
      CountAdmitted(times, max, window, i, j) <= max <==>
        a == b || a + max <= i || Max(0, Min(b, a + max) - i) + (j - b) <= max
  {
    IntervalCount(times, max, window, i, j);
    TwoWindows(times, window, i, j);
  }

  /** No closed interval of length `window` admits 2 * max openers. */
  lemma IntervalBound(times: seq<u64>, max: nat, window: nat, i: nat, j: nat)
    requires Ordered(times) && Unwrapped(times, window) && i < j <= |times| && max >= 1
    requires times[j - 1] - times[i] <= window
    ensures CountAdmitted(times, max, window, i, j) <= 2 * max - 1
  {
    IntervalCount(times, max, window, i, j);
    TwoWindows(times, window, i, j);
  }

  /** One opener, the rest of its window's share a window later, and a full share just after. */
  function Burst(max: nat, window: nat): seq<u64>
    requires window < U64_MAX
  {
    seq(2 * max, k => if k == 0 then 0 else if k < max then window else window + 1)
  }

  lemma {:induction false} BurstWindows(max: nat, window: nat, k: nat)
    requires max >= 1 && window < U64_MAX && k < 2 * max
    ensures WindowStart(Burst(max, window), window, k) == if k < max then 0 else max
  {
    if k > 0 {
      BurstWindows(max, window, k - 1);
    }
  }

  lemma BurstUnwrapped(max: nat, window: nat)
    requires 1 <= max <= U16_MAX && window < U64_MAX
    ensures Ordered(Burst(max, window)) && Unwrapped(Burst(max, window), window)
  {
    forall k | 0 <= k < 2 * max ensures Place(Burst(max, window), window, k) < 0x1_0000_0000 {
      BurstWindows(max, window, k);
    }
  }

  /** Every limit reaches the bound: all openers of the burst but the first lie within a window, and all are let in. */
  lemma IntervalBoundReached(max: nat, window: nat)
    requires 1 <= max <= U16_MAX && 1 <= window < U64_MAX
    ensures var times := Burst(max, window);
      && Ordered(times) && Unwrapped(times, window) && times[2 * max - 1] - times[1] <= window
      && CountAdmitted(times, max, window, 1, 2 * max) == 2 * max - 1
  {
    var times := Burst(max, window);
    BurstUnwrapped(max, window);
    BurstWindows(max, window, 1);
    BurstWindows(max, window, 2 * max - 1);
    IntervalCount(times, max, window, 1, 2 * max);
  }
}
