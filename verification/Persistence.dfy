/**
 * What survives a reboot: bans by wall-clock end, offenders by wall-clock last ban (state.rs `capture`, daemon.rs
 * `restore`).
 */
module Persistence {
  import opened Words
  import opened Wrappers
  import opened Common
  import opened Detectors
  import opened BanStates

  /** `expiresUnix` is a wall-clock second, 0 for a ban that never ends. */
  datatype SavedBan = SavedBan(expiresUnix: nat, record: BanRecord)

  datatype SavedOffender = SavedOffender(strikes: nat, lastBanUnix: nat)

  datatype Saved = Saved(bans: map<Src, SavedBan>, offenders: map<Src, SavedOffender>)

  function Seconds(ns: nat): nat {
    DivShrinks(ns, NS_PER_SEC);
    ns / NS_PER_SEC
  }

  function SavedAs(expiry: u64, rec: BanRecord, unix: nat, boot: u64): SavedBan
    requires Remaining(expiry, boot).Some?
  {
    var left := Remaining(expiry, boot).value;
    SavedBan(if left == 0 then 0 else unix + left, rec)
  }

  function SavedOffenderAs(o: Offender, unix: nat, boot: u64): SavedOffender {
    SavedOffender(o.strikes, SatSub(unix, SatSub(Seconds(boot), o.lastBan)))
  }

  function Capture(bans: map<Src, u64>, records: map<Src, BanRecord>, offenders: map<Src, Offender>, unix: nat,
                   boot: u64): Saved {
    Saved(
      map x | x in bans && Remaining(bans[x], boot).Some? ::
        SavedAs(bans[x], if x in records then records[x] else MANUAL, unix, boot),
      map x | x in offenders :: SavedOffenderAs(offenders[x], unix, boot))
  }

  /** How long a saved ban still has: None when it is over, Some(0) when it never ends. */
  function SecsLeft(b: SavedBan, unix: nat): Option<nat> {
    if b.expiresUnix == 0 then Some(0)
    else if b.expiresUnix > unix then Some(b.expiresUnix - unix)
    else None
  }

  /** The blocklist after the saved bans in `done` were put back where none stands yet. */
  function RestoredBans(bans: map<Src, u64>, saved: map<Src, SavedBan>, done: set<Src>, unix: nat, boot: u64)
    : map<Src, u64> {
    bans + map x | x in saved && x in done && x !in bans && SecsLeft(saved[x], unix).Some? ::
      ExpiryFor(SecsLeft(saved[x], unix).value, boot)
  }

  function RestoredRecords(records: map<Src, BanRecord>, saved: map<Src, SavedBan>, done: set<Src>, unix: nat)
    : map<Src, BanRecord> {
    records + map x | x in saved && x in done && x !in records && SecsLeft(saved[x], unix).Some? :: saved[x].record
  }

  function RestoredOffender(o: SavedOffender, unix: nat, boot: u64): Offender {
    Offender(o.strikes, SatSub(Seconds(boot), SatSub(unix, o.lastBanUnix)))
  }

  function RestoredOffenders(offenders: map<Src, Offender>, saved: map<Src, SavedOffender>, unix: nat, boot: u64)
    : map<Src, Offender> {
    offenders + map x | x in saved :: RestoredOffender(saved[x], unix, boot)
  }

  /** A moment: wall clock and time since boot, both in ns. */
  datatype Moment = Moment(wall: nat, boot: u64)

  /** The wall-clock instant an expiry stands for. */
  function EndOf(expiry: u64, at: Moment): int {
    at.wall + expiry - at.boot
  }

  /** The expiry a finite live ban comes back with, if it comes back. */
  function Rebooted(expiry: u64, down: Moment, up: Moment): Option<u64>
    requires Remaining(expiry, down.boot).Some?
  {
    var left := SecsLeft(SavedAs(expiry, MANUAL, Seconds(down.wall), down.boot), Seconds(up.wall));
    if left.Some? then Some(ExpiryFor(left.value, up.boot)) else None
  }

  lemma SecondsBounds(ns: nat)
    ensures Seconds(ns) * NS_PER_SEC <= ns < (Seconds(ns) + 1) * NS_PER_SEC
  {
  }

  /** The time a restored ban asks for fits the kernel's 64-bit clock. */
  predicate NoWrap(expiry: u64, down: Moment, up: Moment)
    requires Remaining(expiry, down.boot).Some?
  {
    Seconds(down.wall) + Remaining(expiry, down.boot).value - Seconds(up.wall) <= (U64_MAX - up.boot) / NS_PER_SEC
  }

  /** A ban that never ends is restored as one; a finite one never is, short of a wrap. */
  lemma ForeverIffForever(expiry: u64, down: Moment, up: Moment)
    requires Remaining(expiry, down.boot).Some?
    ensures expiry == BAN_FOREVER ==> Rebooted(expiry, down, up) == Some(BAN_FOREVER)
    ensures expiry != BAN_FOREVER && NoWrap(expiry, down, up) ==> Rebooted(expiry, down, up) != Some(BAN_FOREVER)
  {
    if expiry != BAN_FOREVER && NoWrap(expiry, down, up) {
      RebootedExpiry(expiry, down, up);
    }
  }

  lemma RebootedExpiry(expiry: u64, down: Moment, up: Moment)
    requires expiry != BAN_FOREVER && expiry > down.boot && NoWrap(expiry, down, up)
    ensures var secs := Seconds(down.wall) + CeilDiv(expiry - down.boot, NS_PER_SEC) - Seconds(up.wall);
      Rebooted(expiry, down, up) == if secs > 0 then Some(up.boot + secs * NS_PER_SEC) else None
  {
    CeilBounds(expiry - down.boot, NS_PER_SEC);
    var secs := Seconds(down.wall) + CeilDiv(expiry - down.boot, NS_PER_SEC) - Seconds(up.wall);
    if secs > 0 {
      assert secs <= (U64_MAX - up.boot) / NS_PER_SEC;
      ExpiryExactIff(secs, up.boot);
    }
  }

  /**
   * Across a reboot a finite ban keeps its wall-clock end to within a second early and two late, and one that is
   * dropped had less than a second left.
   */
  lemma RebootKeepsEnd(expiry: u64, down: Moment, up: Moment)
    requires expiry != BAN_FOREVER && expiry > down.boot && NoWrap(expiry, down, up)
    ensures Rebooted(expiry, down, up).Some? ==>
      EndOf(expiry, down) - NS_PER_SEC < EndOf(Rebooted(expiry, down, up).value, up) < EndOf(expiry,
          down) + 2 * NS_PER_SEC
    ensures Rebooted(expiry, down, up).None? ==> EndOf(expiry, down) - up.wall < NS_PER_SEC
  {
    RebootedExpiry(expiry, down, up);
    CeilBounds(expiry - down.boot, NS_PER_SEC);
    SecondsBounds(down.wall);
    SecondsBounds(up.wall);
  }

  /** The restored end is that close exactly when the new expiry does not wrap; a wrapped one is centuries early. */
  lemma RebootKeepsEndIff(expiry: u64, down: Moment, up: Moment)
    requires expiry != BAN_FOREVER && expiry > down.boot && Rebooted(expiry, down, up).Some?
    ensures EndOf(expiry, down) - NS_PER_SEC < EndOf(Rebooted(expiry, down, up).value, up) < EndOf(expiry,
        down) + 2 * NS_PER_SEC
            <==> NoWrap(expiry, down, up)
  {
    if NoWrap(expiry, down, up) {
      RebootKeepsEnd(expiry, down, up);
    } else {
      CeilBounds(expiry - down.boot, NS_PER_SEC);
      SecondsBounds(down.wall);
      SecondsBounds(up.wall);
      var secs := Seconds(down.wall) + CeilDiv(expiry - down.boot, NS_PER_SEC) - Seconds(up.wall);
      assert secs > (U64_MAX - up.boot) / NS_PER_SEC;
      WrappedIsEarly(up.boot + secs * NS_PER_SEC);
    }
  }

  lemma WrappedIsEarly(e: nat)
    requires e >= 0x1_0000_0000_0000_0000
    ensures e % 0x1_0000_0000_0000_0000 <= e - 0x1_0000_0000_0000_0000
  {
  }

  /** Down at one moment, up at another, down again later with both clocks having run alike in between. */
  datatype Cycle = Cycle(down: Moment, up: Moment)

  /** A ban through a run of reboots; None once it is dropped. */
  function ThroughAll(expiry: u64, cycles: seq<Cycle>): Option<u64>
    decreases |cycles|
  {
    if cycles == [] then Some(expiry)
    else if Remaining(expiry, cycles[0].down.boot).None? then None
    else
      var e := Rebooted(expiry, cycles[0].down, cycles[0].up);
      if e.None? then None else ThroughAll(e.value, cycles[1..])
  }

  /** Between coming up and going down the two clocks advance by the same amount; no restore wraps. */
  ghost predicate ClocksAgree(expiry: u64, cycles: seq<Cycle>)
    decreases |cycles|
  {
    cycles == [] ||
    (&& (Remaining(expiry, cycles[0].down.boot).Some? ==>
          && NoWrap(expiry, cycles[0].down, cycles[0].up)
          && (Rebooted(expiry, cycles[0].down, cycles[0].up).Some? ==>
               ClocksAgree(Rebooted(expiry, cycles[0].down, cycles[0].up).value, cycles[1..])))
     && (|cycles| > 1 ==>
          cycles[1].down.wall - cycles[0].up.wall == cycles[1].down.boot - cycles[0].up.boot))
  }

  function LastUp(cycles: seq<Cycle>): Moment
    requires cycles != []
  {
    cycles[|cycles| - 1].up
  }

  /** Over n reboots the end drifts by less than n seconds early and 2n late; a ban forever stays forever. */
  lemma {:induction false} DriftOverReboots(expiry: u64, cycles: seq<Cycle>)
    requires cycles != [] && ClocksAgree(expiry, cycles) && ThroughAll(expiry, cycles).Some?
    ensures expiry == BAN_FOREVER <==> ThroughAll(expiry, cycles) == Some(BAN_FOREVER)
    ensures expiry != BAN_FOREVER ==>
      var (first, last) := (EndOf(expiry, cycles[0].down), EndOf(ThroughAll(expiry, cycles).value, LastUp(cycles)));
      first - |cycles| * NS_PER_SEC < last < first + 2 * |cycles| * NS_PER_SEC
    decreases |cycles|
  {
    var c := cycles[0];
    var e := Rebooted(expiry, c.down, c.up).value;
    ForeverIffForever(expiry, c.down, c.up);
    if expiry != BAN_FOREVER {
      RebootKeepsEnd(expiry, c.down, c.up);
    }
    if |cycles| > 1 {
      DriftOverReboots(e, cycles[1..]);
      assert LastUp(cycles) == LastUp(cycles[1..]);
    }
  }

  /** What is saved and restored for a source whose ban is not in the kernel map after the reboot. */
  lemma RestoredIsRebooted(bans: map<Src, u64>, records: map<Src, BanRecord>, offenders: map<Src, Offender>, x: Src,
                           down: Moment, up: Moment)
    ensures var saved := Capture(bans, records, offenders, Seconds(down.wall), down.boot);
      var back := RestoredBans(map[], saved.bans, saved.bans.Keys, Seconds(up.wall), up.boot);
      if x in bans && Remaining(bans[x], down.boot).Some? && Rebooted(bans[x], down, up).Some?
      then x in back && back[x] == Rebooted(bans[x], down, up).value
      else x !in back
    ensures var saved := Capture(bans, records, offenders, Seconds(down.wall), down.boot);
      var back := RestoredBans(map[], saved.bans, saved.bans.Keys, Seconds(up.wall), up.boot);
      var told := RestoredRecords(map[], saved.bans, saved.bans.Keys, Seconds(up.wall));
      && (x in told <==> x in back)
      && (x in back && x in records ==> told[x] == records[x])
      && (x in back && x !in records ==> told[x].source == "manual")
    ensures var saved := Capture(bans, records, offenders, Seconds(down.wall), down.boot);
      var back := RestoredOffenders(map[], saved.offenders, Seconds(up.wall), up.boot);
      (x in back <==> x in offenders) && (x in back ==> back[x].strikes == offenders[x].strikes)
  {
  }

  /**
   * A restored offender's age is what the wall clock says, cut to the time since boot: never overstated, so no
   * offender is forgiven early because of a reboot.
   */
  lemma RestoredAge(o: Offender, down: Moment, up: Moment)
    requires o.lastBan <= Seconds(down.boot)
    ensures var saved := SavedOffenderAs(o, Seconds(down.wall), down.boot);
      var back := RestoredOffender(saved, Seconds(up.wall), up.boot);
      var age := Seconds(down.boot) - o.lastBan + Seconds(up.wall) - Seconds(down.wall);
      var restored := Seconds(up.boot) - back.lastBan;
      && back.strikes == o.strikes
      && 0 <= restored <= Max(age, 0)
      && (Seconds(down.boot) - o.lastBan <= Seconds(down.wall) ==> restored == Min(Max(age, 0), Seconds(up.boot)))
  {
  }
}
