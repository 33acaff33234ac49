/**
 * The table of outbound UDP flows (eBPF `UDP_FLOWS`, `UDP_FLOWS6`): each packet out sets its key's expiry, and an
 * insert may make the least-recently-used map forget other keys.
 */
module UdpFlows {
  import opened Words
  import opened Wrappers
  import opened Common

  datatype UdpFlow<+A> = UdpFlow(remote: A, localPort: u16, remotePort: u16)

  /** A map of expiries says "live": forever, or not yet over. */
  predicate Live<K>(m: map<K, nat>, k: K, now: nat) {
    k in m && (m[k] == BAN_FOREVER || now < m[k])
  }

  /** A packet out at `time`: the key it records, if it is UDP, and what the map forgets to make room. */
  datatype FlowEvent<K> = FlowEvent(sent: Option<K>, forgets: set<K>, time: nat)

  function Record<K>(m: map<K, nat>, e: FlowEvent<K>): map<K, nat> {
    if e.sent.None? then m else (m - e.forgets)[e.sent.value := e.time + UDP_FLOW_TTL_NS]
  }

  function RecordAll<K>(m: map<K, nat>, es: seq<FlowEvent<K>>): map<K, nat> {
    if es == [] then m else Record(RecordAll(m, es[..|es| - 1]), es[|es| - 1])
  }

  ghost predicate TimesOrdered<K(!new)>(es: seq<FlowEvent<K>>) {
    forall i, j :: 0 <= i <= j < |es| ==> es[i].time <= es[j].time
  }

  /** Event `i` sent to `k` less than the time-to-live before `now`. */
  ghost predicate SentRecently<K(!new)>(es: seq<FlowEvent<K>>, k: K, now: nat, i: int) {
    0 <= i < |es| && es[i].sent == Some(k) && now < es[i].time + 180_000_000_000
  }

  /** A live entry was put there by a packet out less than 180 s ago, whatever was forgotten in between. */
  lemma {:induction false} LiveWasSent<K(!new)>(es: seq<FlowEvent<K>>, k: K, now: nat)
    requires Live(RecordAll(map[], es), k, now)
    ensures exists i :: SentRecently(es, k, now, i)
  {
    var n := |es| - 1;
    if es[n].sent == Some(k) {
      assert SentRecently(es, k, now, n);
    } else {
      LiveWasSent(es[..n], k, now);
      var i :| SentRecently(es[..n], k, now, i);
      assert SentRecently(es, k, now, i);
    }
  }

  /** Without forgetting, the converse: a packet out less than 180 s ago keeps its entry live. */
  lemma {:induction false} SentStaysLive<K(!new)>(es: seq<FlowEvent<K>>, k: K, now: nat, i: int)
    requires TimesOrdered(es) && SentRecently(es, k, now, i)
    requires forall j :: 0 <= j < |es| ==> k !in es[j].forgets
    ensures Live(RecordAll(map[], es), k, now)
  {
    var n := |es| - 1;
    if es[n].sent != Some(k) {
      assert SentRecently(es[..n], k, now, i);
      SentStaysLive(es[..n], k, now, i);
    }
  }
}
