/** Grouped ban notifications: at most one a minute, nothing lost (history.rs). */
module BanNotices {
  import opened Words
  import opened Wrappers

  const NOTE_INTERVAL_SECS: nat := 60
  const NOTE_SHOWN: nat := 3

  datatype Item = Item(ip: string, reason: string)

  /** One notification: the sources named, and how many it announces in all. */
  datatype Note = Note(named: seq<Item>, total: nat)

  datatype Pending = Pending(shown: seq<Item>, count: nat, lastSent: Option<nat>)

  const QUIET: Pending := Pending([], 0, None)

  datatype Op = Push(item: Item) | Take(now: nat)

  function Pushed(p: Pending, item: Item): Pending {
    p.(shown := if |p.shown| < NOTE_SHOWN then p.shown + [item] else p.shown, count := p.count + 1)
  }

  predicate Due(p: Pending, now: nat) {
    p.count != 0 && !(p.lastSent.Some? && SatSub(now, p.lastSent.value) < NOTE_INTERVAL_SECS)
  }

  function Taken(p: Pending, now: nat): (Pending, Option<Note>) {
    if Due(p, now) then (Pending([], 0, Some(now)), Some(Note(p.shown, p.count))) else (p, None)
  }

  function Apply(p: Pending, op: Op): Pending {
    match op
    case Push(item) => Pushed(p, item)
    case Take(now) => Taken(p, now).0
  }

  function Run(ops: seq<Op>): Pending {
    if ops == [] then QUIET else Apply(Run(ops[..|ops| - 1]), ops[|ops| - 1])
  }

  datatype Sent = Sent(note: Note, at: nat)

  /** The notifications of a run, oldest first. */
  function Notes(ops: seq<Op>): seq<Sent> {
    if ops == [] then []
    else
      var n := |ops| - 1;
      Notes(ops[..n]) +
      match ops[n]
      case Push(_) => []
      case Take(now) =>
        var t := Taken(Run(ops[..n]), now).1;
        if t.Some? then [Sent(t.value, now)] else []
  }

  /** Everything pushed in a run, oldest first. */
  function Items(ops: seq<Op>): seq<Item> {
    if ops == [] then []
    else
      var n := |ops| - 1;
      Items(ops[..n]) + (if ops[n].Push? then [ops[n].item] else [])
  }

  function Announced(notes: seq<Sent>): nat {
    if notes == [] then 0 else Announced(notes[..|notes| - 1]) + notes[|notes| - 1].note.total
  }

  /** The first three of a run of pushes: who gets named. */
  function Named(items: seq<Item>): seq<Item> {
    items[..Min(|items|, 3)]
  }

  /**
   * Conservation: what was pushed is what was announced and what is pending, none counted twice; the pending names
   * are the first three pushed since the last notification.
   */
  lemma {:induction false} NothingLost(ops: seq<Op>)
    ensures |Items(ops)| == Announced(Notes(ops)) + Run(ops).count
    ensures Run(ops).shown == Named(Items(ops)[Announced(Notes(ops))..])
    ensures |Run(ops).shown| == Min(Run(ops).count, 3)
  {
    if ops != [] {
      var n := |ops| - 1;
      NothingLost(ops[..n]);
      var before, p := Items(ops[..n]), Run(ops[..n]);
      var k := Announced(Notes(ops[..n]));
      match ops[n]
      case Push(item) =>
        assert Notes(ops) == Notes(ops[..n]);
        assert (before + [item])[k..] == before[k..] + [item];
      case Take(now) =>
        assert Items(ops) == before;
        if Due(p, now) {
          assert Notes(ops)[..|Notes(ops[..n])|] == Notes(ops[..n]);
        } else {
          assert Notes(ops) == Notes(ops[..n]);
        }
    }
  }

  /** A notification that announces the pushes from number `start` on: how many, and the first three by name. */
  predicate Announces(note: Note, items: seq<Item>, start: nat) {
    1 <= note.total && start + note.total <= |items| && note.named == Named(items[start..start + note.total])
  }

  lemma StillAnnounces(note: Note, items: seq<Item>, more: seq<Item>, start: nat)
    requires items <= more && Announces(note, items, start)
    ensures Announces(note, more, start)
  {
    assert more[start..start + note.total] == items[start..start + note.total];
  }

  lemma LatestAnnounces(ops: seq<Op>, now: nat)
    requires Due(Run(ops), now)
    ensures Announces(Note(Run(ops).shown, Run(ops).count), Items(ops), Announced(Notes(ops)))
  {
    NothingLost(ops);
    var items, k := Items(ops), Announced(Notes(ops));
    assert items[k..|items|] == items[k..];
  }

  /** One more step adds at most one notification, of what was pending. */
  lemma NotesGrow(ops: seq<Op>)
    requires ops != []
    ensures var n := |ops| - 1;
      && Notes(ops[..n]) <= Notes(ops) && Items(ops[..n]) <= Items(ops)
      && (|Notes(ops)| > |Notes(ops[..n])| ==>
        var p := Run(ops[..n]);
        ops[n].Take? && Due(p, ops[n].now) && |Notes(ops)| == |Notes(ops[..n])| + 1
        && Notes(ops)[|Notes(ops[..n])|] == Sent(Note(p.shown, p.count), ops[n].now))
  {
  }

  /** Each notification announces at least one ban and names the first three of those it announces. */
  lemma {:induction false} NotesAreFaithful(ops: seq<Op>, i: nat)
    requires i < |Notes(ops)|
    ensures Announces(Notes(ops)[i].note, Items(ops), Announced(Notes(ops)[..i]))
  {
    var n := |ops| - 1;
    var before := Notes(ops[..n]);
    NotesGrow(ops);
    if i < |before| {
      NotesAreFaithful(ops[..n], i);
      assert Notes(ops)[..i] == before[..i];
      StillAnnounces(before[i].note, Items(ops[..n]), Items(ops), Announced(before[..i]));
    } else {
      LatestAnnounces(ops[..n], ops[n].now);
      assert Notes(ops)[..i] == before;
      StillAnnounces(Notes(ops)[i].note, Items(ops[..n]), Items(ops), Announced(before));
    }
  }

  /** The last notification's time is what the throttle remembers. */
  lemma {:induction false} LastSentIs(ops: seq<Op>)
    ensures Run(ops).lastSent == if Notes(ops) == [] then None else Some(Notes(ops)[|Notes(ops)| - 1].at)
  {
    if ops != [] {
      LastSentIs(ops[..|ops| - 1]);
    }
  }

  /** Throttle: consecutive notifications are at least a minute apart, even if the clock is set back in between. */
  lemma {:induction false} AtMostOneAMinute(ops: seq<Op>, i: nat)
    requires i + 1 < |Notes(ops)|
    ensures Notes(ops)[i + 1].at >= Notes(ops)[i].at + 60
  {
    var n := |ops| - 1;
    LastSentIs(ops[..n]);
    if i + 1 < |Notes(ops[..n])| {
      AtMostOneAMinute(ops[..n], i);
    }
  }

  /** And no later: asked for one, a notification goes out exactly when a ban waits and the last was a minute ago. */
  lemma SentIff(ops: seq<Op>, now: nat)
    ensures var (before, after) := (Notes(ops), Notes(ops + [Take(now)]));
      |after| == |before| + 1 <==>
        |Items(ops)| > Announced(before) && (before == [] || now >= before[|before| - 1].at + 60)
  {
    var more := ops + [Take(now)];
    assert more[..|ops|] == ops;
    NothingLost(ops);
    LastSentIs(ops);
  }

  class BanNotes {
    var shown: seq<Item>
    var count: nat
    var lastSent: Option<nat>

    constructor ()
      ensures St() == QUIET && Valid()
    {
      shown, count, lastSent := [], 0, None;
    }

    function St(): Pending
      reads this
    {
      Pending(shown, count, lastSent)
    }

    predicate Valid()
      reads this
    {
      |shown| == Min(count, NOTE_SHOWN)
    }

    method Push(item: Item)
      requires Valid()
      modifies this`shown, this`count
      ensures St() == Pushed(old(St()), item) && Valid()
    {
      if |shown| < NOTE_SHOWN {
        shown := shown + [item];
      }
      count := count + 1;
    }

    /** The notification due now, if any; `more` never underflows and a single ban is always named. */
    method Take(now: nat) returns (note: Option<Note>)
      requires Valid()
      modifies this
      ensures (St(), note) == Taken(old(St()), now) && Valid()
    {
      if count == 0 || (lastSent.Some? && SatSub(now, lastSent.value) < NOTE_INTERVAL_SECS) {
        return None;
      }
      if count == 1 {
        var first := shown[0];
        note := Some(Note([first], 1));
        assert shown == [first];
      } else {
        var more := count - |shown|;
        assert more >= 0;
        note := Some(Note(shown, |shown| + more));
      }
      shown, count, lastSent := [], 0, Some(now);
    }
  }
}
