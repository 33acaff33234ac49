/**
 * Diff updates of a kernel trie against the daemon's mirror of it (daemon.rs `sync_trie`, the diff in `apply_feeds`).
 * A trie stores one node per prefix: its length and its leading bits. It holds a bounded number of nodes.
 */
module MapSync {
  import opened Words
  import opened Wrappers
  import opened Collections
  import opened Cidrs
  import opened RuleKeys

  type Node = (nat, int)

  function NodesOf<E>(es: set<E>, node: E -> Node): set<Node> {
    set e | e in es :: node(e)
  }

  ghost predicate Distinct<E(!new)>(es: set<E>, node: E -> Node) {
    forall e, f :: e in es && f in es && node(e) == node(f) ==> e == f
  }

  /** What a successful diff update makes of a trie. */
  function Synced(nodes: set<Node>, have: set<Node>, wanted: set<Node>): set<Node> {
    (nodes - (have - wanted)) + (wanted - have)
  }

  lemma {:induction false} DistinctCard<E(!new)>(es: set<E>, node: E -> Node)
    requires Distinct(es, node)
    ensures |NodesOf(es, node)| == |es|
  {
    if e :| e in es {
      DistinctCard(es - {e}, node);
      assert NodesOf(es, node) == NodesOf(es - {e}, node) + {node(e)};
      assert es == (es - {e}) + {e};
    } else {
      assert es == {};
      assert NodesOf(es, node) == {};
    }
  }

  lemma DistinctDiff<E(!new)>(a: set<E>, b: set<E>, node: E -> Node)
    requires Distinct(a + b, node)
    ensures NodesOf(a - b, node) == NodesOf(a, node) - NodesOf(b, node)
  {
  }

  /** Takes out the nodes of entries no longer wanted. */
  method RemoveAll<E(==)>(trie: set<Node>, stale: set<E>, node: E -> Node) returns (trie': set<Node>)
    ensures trie' == trie - NodesOf(stale, node) && |trie'| <= |trie|
  {
    trie' := trie;
    var todo := stale;
    while todo != {}
      invariant todo <= stale
      invariant trie' == trie - NodesOf(stale - todo, node)
    {
      var e :| e in todo;
      var rest := todo - {e};
      assert stale - rest == (stale - todo) + {e};
      trie', todo := trie' - {node(e)}, rest;
    }
    assert stale - {} == stale;
    SubsetCard(trie', trie);
  }

  /** Puts in nodes until one does not fit. */
  method InsertUntilFull<E(==,!new)>(trie: set<Node>, incoming: set<E>, node: E -> Node, cap: nat)
    returns (ok: bool, trie': set<Node>, ghost added: set<E>)
    requires |trie| <= cap
    ensures |trie'| <= cap && added <= incoming && trie' == trie + NodesOf(added, node)
    ensures ok ==> added == incoming
    ensures !ok ==> |trie'| == cap && exists e :: e in incoming - added && node(e) !in trie'
  {
    trie', added := trie, {};
    var todo := incoming;
    while todo != {}
      invariant |trie'| <= cap
      invariant todo <= incoming && added == incoming - todo
      invariant trie' == trie + NodesOf(added, node)
    {
      var e :| e in todo;
      if node(e) !in trie' && |trie'| >= cap {
        assert e in incoming - added;
        return false, trie', added;
      }
      var rest := todo - {e};
      assert incoming - rest == added + {e};
      trie', todo, added := trie' + {node(e)}, rest, added + {e};
    }
    ok := true;
  }

  lemma NodesOfAdd<E>(es: set<E>, e: E, node: E -> Node)
    ensures NodesOf(es + {e}, node) == NodesOf(es, node) + {node(e)}
  {
  }

  /** Of the entries tried, those added are in, and any other met a full trie and is not. */
  ghost predicate Filled<E(!new)>(trie: set<Node>, tried: set<E>, added: set<E>, node: E -> Node, cap: nat,
                                  failed: nat, trie': set<Node>)
  {
    && added <= tried && trie' == trie + NodesOf(added, node) && |trie'| <= cap
    && (failed == 0 <==> added == tried)
    && (failed > 0 ==> |trie'| == cap && exists e :: e in tried && e !in added && node(e) !in trie')
  }

  lemma SkipsOne<E(!new)>(trie: set<Node>, tried: set<E>, added: set<E>, node: E -> Node, cap: nat, failed: nat,
                          trie': set<Node>, e: E)
    requires Filled(trie, tried, added, node, cap, failed, trie') && e !in tried
    requires node(e) !in trie' && |trie'| >= cap
    ensures Filled(trie, tried + {e}, added, node, cap, failed + 1, trie')
  {
    assert e in tried + {e} && e !in added;
  }

  lemma PutsOne<E(!new)>(trie: set<Node>, tried: set<E>, added: set<E>, node: E -> Node, cap: nat, failed: nat,
                         trie': set<Node>, e: E)
    requires Filled(trie, tried, added, node, cap, failed, trie') && e !in tried
    requires node(e) in trie' || |trie'| < cap
    ensures Filled(trie, tried + {e}, added + {e}, node, cap, failed, trie' + {node(e)})
  {
    NodesOfAdd(added, e, node);
    if failed > 0 {
      assert trie' + {node(e)} == trie';
      var f :| f in tried && f !in added && node(f) !in trie';
      assert f in tried + {e} && f !in added + {e};
    }
  }

  /** Puts in every node that fits, counting the others. */
  method InsertSkipping<E(==,!new)>(trie: set<Node>, incoming: set<E>, node: E -> Node, cap: nat)
    returns (failed: nat, trie': set<Node>, ghost added: set<E>)
    requires |trie| <= cap
    ensures Filled(trie, incoming, added, node, cap, failed, trie')
  {
    failed, trie', added := 0, trie, {};
    var todo := incoming;
    assert incoming - todo == {};
    assert trie' == trie + NodesOf(added, node);
    while todo != {}
      invariant todo <= incoming
      invariant Filled(trie, incoming - todo, added, node, cap, failed, trie')
    {
      hide Filled;
      var e :| e in todo;
      var rest := todo - {e};
      assert incoming - rest == (incoming - todo) + {e};
      if node(e) !in trie' && |trie'| >= cap {
        SkipsOne(trie, incoming - todo, added, node, cap, failed, trie', e);
        failed := failed + 1;
      } else {
        PutsOne(trie, incoming - todo, added, node, cap, failed, trie', e);
        trie', added := trie' + {node(e)}, added + {e};
      }
      todo := rest;
    }
    assert incoming - {} == incoming;
  }

  /**
   * What an update leaves of a trie, `have` and `wanted` being nodes: everything done, or stopped at a full trie with
   * everything stale out and something new not in.
   */
  predicate Updated(trie: set<Node>, have: set<Node>, wanted: set<Node>, cap: nat, ok: bool, trie': set<Node>) {
    if ok then trie' == Synced(trie, have, wanted)
    else
      var kept := trie - (have - wanted);
      |trie'| == cap && kept <= trie' <= kept + (wanted - have) && !(wanted - have <= trie')
  }

  /** From any state of trie and mirror, an update is done exactly when what it would make of the trie fits. */
  lemma DoneIffFits(trie: set<Node>, have: set<Node>, wanted: set<Node>, cap: nat, ok: bool, trie': set<Node>)
    requires Updated(trie, have, wanted, cap, ok, trie') && |trie'| <= cap
    ensures ok <==> |Synced(trie, have, wanted)| <= cap
  {
    if !ok {
      var n :| n in wanted - have && n !in trie';
      FewerThan(trie', Synced(trie, have, wanted), n);
    }
  }

  /** Nothing is in the trie that is in neither mirror nor wanted set, and nothing both hold is missing from it. */
  predicate Clean(trie: set<Node>, have: set<Node>, wanted: set<Node>) {
    trie - have <= wanted && have * wanted <= trie
  }

  /** And once done, the trie is a load of the wanted set from scratch exactly when it was clean for it. */
  lemma InStepIffClean(trie: set<Node>, have: set<Node>, wanted: set<Node>)
    ensures Synced(trie, have, wanted) == wanted <==> Clean(trie, have, wanted)
  {
    var result := Synced(trie, have, wanted);
    if result == wanted {
      forall n | n in trie - have ensures n in wanted {
        assert n in result;
      }
      forall n | n in have * wanted ensures n in trie {
        assert n in result;
      }
    }
  }

  /**
   * The rule update. It stops at the first node that does not fit, leaving the mirror as it was; from a trie that
   * matches its mirror it succeeds exactly when everything wanted fits, from any other when what it would hold fits.
   */
  method SyncTrie(trie: set<Node>, have: set<(nat, RuleKey)>, wanted: set<(nat, RuleKey)>, cap: nat)
    returns (r: Result<()>, trie': set<Node>, have': set<(nat, RuleKey)>)
    requires |trie| <= cap
    requires Distinct(have + wanted, RuleNode)
    ensures |trie'| <= cap && have' == if r.Ok? then wanted else have
    ensures Updated(trie, NodesOf(have, RuleNode), NodesOf(wanted, RuleNode), cap, r.Ok?, trie')
    ensures r.Ok? <==> |Synced(trie, NodesOf(have, RuleNode), NodesOf(wanted, RuleNode))| <= cap
    ensures trie == NodesOf(have, RuleNode) ==> (r.Ok? <==> |wanted| <= cap)
  {
    hide RuleNode;
    var kept := RemoveAll(trie, have - wanted, RuleNode);
    var ok;
    ghost var added;
    ok, trie', added := InsertUntilFull(kept, wanted - have, RuleNode, cap);
    DistinctDiff(have, wanted, RuleNode);
    DistinctDiff(wanted, have, RuleNode);
    if ok {
      r, have' := Ok(()), wanted;
    } else {
      r, have' := Err(MapFull), have;
      ghost var e :| e in (wanted - have) - added && RuleNode(e) !in trie';
      assert RuleNode(e) in NodesOf(wanted - have, RuleNode);
    }
    DoneIffFits(trie, NodesOf(have, RuleNode), NodesOf(wanted, RuleNode), cap, ok, trie');
    if trie == NodesOf(have, RuleNode) {
      UpdateFits(have, wanted, added, RuleNode, trie', cap);
    }
  }

  /** From a trie that matches its mirror, everything wanted goes in exactly when everything wanted fits. */
  lemma UpdateFits<E(!new)>(have: set<E>, wanted: set<E>, added: set<E>, node: E -> Node, trie: set<Node>, cap: nat)
    requires Distinct(have + wanted, node) && added <= wanted - have
    requires trie == (NodesOf(have, node) - NodesOf(have - wanted, node)) + NodesOf(added, node)
    requires |trie| <= cap && (added != wanted - have ==> |trie| == cap)
    ensures added == wanted - have <==> |wanted| <= cap
    ensures trie == NodesOf(wanted, node) <==> added == wanted - have
  {
    var stored := have * wanted + added;
    StoredNodes(have, wanted, added, node);
    DistinctCard(stored, node);
    DistinctCard(wanted, node);
    FitsByCount(have, wanted, added, cap);
  }

  lemma FitsByCount<E>(have: set<E>, wanted: set<E>, added: set<E>, cap: nat)
    requires added <= wanted - have
    requires var n := |have * wanted + added|; n <= cap && (added != wanted - have ==> n == cap)
    ensures added == wanted - have <==> |wanted| <= cap
    ensures added == wanted - have ==> have * wanted + added == wanted
    ensures added != wanted - have ==> |have * wanted + added| < |wanted|
  {
    var stored := have * wanted + added;
    if added == wanted - have {
      assert stored == wanted;
    } else {
      var gap := (wanted - have) - added;
      assert wanted - have == added + gap;
      var e :| e in gap;
      assert stored + {e} <= wanted;
      SubsetCard(stored + {e}, wanted);
    }
  }

  lemma StoredNodes<E(!new)>(have: set<E>, wanted: set<E>, added: set<E>, node: E -> Node)
    requires Distinct(have + wanted, node) && added <= wanted - have
    ensures (NodesOf(have, node) - NodesOf(have - wanted, node)) + NodesOf(added, node) ==
            NodesOf(have * wanted + added, node)
  {
  }

  /** The node a compiled entry occupies. */
  function RuleNode(e: (nat, RuleKey)): Node {
    (e.0, if e.0 <= RULE_BITS then Lead(RULE_BITS, e.0, Word(e.1)) else 0)
  }

  predicate NodeMatches(width: nat, n: Node, word: nat) {
    n.0 <= width && n.1 == Lead(width, n.0, word)
  }

  ghost predicate Canonical(es: set<(nat, RuleKey)>) {
    forall e :: e in es ==> exists p: u16, net: Cidr :: net.IsPrefix() && e == RuleEntry(p, net)
  }

  /** Canonical entries never share a node, so removing one never removes another. */
  lemma CanonicalDistinct(es: set<(nat, RuleKey)>)
    requires Canonical(es)
    ensures Distinct(es, RuleNode)
  {
    forall e, f | e in es && f in es && RuleNode(e) == RuleNode(f) ensures e == f {
      var p: u16, net: Cidr :| net.IsPrefix() && e == RuleEntry(p, net);
      var q: u16, net': Cidr :| net'.IsPrefix() && f == RuleEntry(q, net');
      RuleEntryLeadInjective(p, net, q, net');
    }
  }

  /** The node a feed network occupies in the 32-bit trie. */
  function FeedNode(c: Cidr): Node {
    (c.Bits(), Lead(FEED_BITS, c.Bits(), c.net))
  }

  /** A feed network's node matches exactly the addresses of the network. */
  lemma FeedMatchIsContains(c: Cidr, ip: u32)
    requires c.IsPrefix()
    ensures NodeMatches(FEED_BITS, FeedNode(c), ip) <==> c.Contains(ip)
  {
    ContainsIsInterval(c, ip);
  }

  lemma FeedsDistinct(cs: set<Cidr>)
    requires forall c :: c in cs ==> c.IsPrefix()
    ensures Distinct(cs, FeedNode)
  {
    forall c, d | c in cs && d in cs && FeedNode(c) == FeedNode(d) ensures c == d {
      ContainsIsInterval(c, d.net);
      ContainsIsInterval(d, c.net);
    }
  }

  /** An update, complete or not, leaves no node outside what is wanted, if there was none outside the mirror. */
  lemma StaysInside<E(!new)>(trie: set<Node>, have: set<E>, wanted: set<E>, added: set<E>, node: E -> Node)
    requires Distinct(have + wanted, node) && added <= wanted
    ensures trie <= NodesOf(have, node) ==>
      (trie - NodesOf(have - wanted, node)) + NodesOf(added, node) <= NodesOf(wanted, node)
  {
  }

  /** Nothing is skipped exactly when what the trie would hold with everything new fits. */
  lemma FedFits<E(!new)>(trie: set<Node>, have: set<E>, wanted: set<E>, added: set<E>, node: E -> Node,
                         trie': set<Node>, cap: nat, failed: nat)
    requires Distinct(have + wanted, node) && added <= wanted - have
    requires trie' == (trie - NodesOf(have - wanted, node)) + NodesOf(added, node) && |trie'| <= cap
    requires failed == 0 ==> added == wanted - have
    requires failed > 0 ==> |trie'| == cap && exists e :: e in wanted - have && node(e) !in trie'
    ensures failed == 0 <==> |Synced(trie, NodesOf(have, node), NodesOf(wanted, node))| <= cap
  {
    DistinctDiff(have, wanted, node);
    DistinctDiff(wanted, have, node);
    var result := Synced(trie, NodesOf(have, node), NodesOf(wanted, node));
    if failed > 0 {
      var e :| e in wanted - have && node(e) !in trie';
      assert node(e) in NodesOf(wanted - have, node);
      FewerThan(trie', result, node(e));
    }
  }

  /**
   * From a trie with nothing outside its mirror, a feed update ends in step exactly when everything new went in and
   * nothing that both hold was missing.
   */
  lemma FedInStepIff<E(!new)>(trie: set<Node>, have: set<E>, wanted: set<E>, added: set<E>, node: E -> Node)
    requires Distinct(have + wanted, node) && added <= wanted - have
    ensures trie <= NodesOf(have, node) ==>
      ((trie - NodesOf(have - wanted, node)) + NodesOf(added, node) == NodesOf(wanted, node) <==>
        added == wanted - have && NodesOf(have * wanted, node) <= trie)
  {
    var result := (trie - NodesOf(have - wanted, node)) + NodesOf(added, node);
    if trie <= NodesOf(have, node) {
      if result == NodesOf(wanted, node) {
        forall e | e in wanted - have ensures e in added {
          assert node(e) in result;
        }
        forall e | e in have * wanted ensures node(e) in trie {
          assert node(e) in result;
        }
      } else if added == wanted - have && NodesOf(have * wanted, node) <= trie {
        forall e | e in wanted ensures node(e) in result {
          assert e in have ==> node(e) in NodesOf(have * wanted, node);
        }
        StaysInside(trie, have, wanted, added, node);
      }
    }
  }

  /** What a feed update leaves of a trie: everything stale out, and what fitted of the new in. */
  ghost predicate Fed(trie: set<Node>, have: set<Cidr>, wanted: set<Cidr>, added: set<Cidr>, trie': set<Node>) {
    added <= wanted - have && trie' == (trie - NodesOf(have - wanted, FeedNode)) + NodesOf(added, FeedNode)
  }

  /**
   * The feed update: like the rule update, but a network that does not fit is counted, skipped, and still
   * recorded in the mirror.
   */
  method SyncFeeds(trie: set<Node>, have: set<Cidr>, wanted: set<Cidr>, cap: nat)
    returns (trie': set<Node>, have': set<Cidr>, failed: nat, ghost added: set<Cidr>)
    requires |trie| <= cap
    requires Distinct(have + wanted, FeedNode)
    ensures |trie'| <= cap && have' == wanted
    ensures Fed(trie, have, wanted, added, trie') && (failed == 0 <==> added == wanted - have)
    ensures failed == 0 <==> |Synced(trie, NodesOf(have, FeedNode), NodesOf(wanted, FeedNode))| <= cap
    ensures trie <= NodesOf(have, FeedNode) ==>
      (trie' == NodesOf(wanted, FeedNode) <==> failed == 0 && NodesOf(have * wanted, FeedNode) <= trie)
    ensures trie == NodesOf(have, FeedNode) ==> (trie' == NodesOf(wanted, FeedNode) <==> |wanted| <= cap)
    ensures trie == NodesOf(have, FeedNode) && |wanted| <= cap ==> failed == 0
    ensures trie <= NodesOf(have, FeedNode) ==> trie' <= NodesOf(wanted, FeedNode)
  {
    var kept := RemoveAll(trie, have - wanted, FeedNode);
    failed, trie', added := InsertSkipping(kept, wanted - have, FeedNode, cap);
    have' := wanted;
    FedFits(trie, have, wanted, added, FeedNode, trie', cap, failed);
    FedInStepIff(trie, have, wanted, added, FeedNode);
    if trie == NodesOf(have, FeedNode) {
      UpdateFits(have, wanted, added, FeedNode, trie', cap);
    }
    StaysInside(trie, have, wanted, added, FeedNode);
  }

  /** Over any run of feed updates from an empty trie, whatever did not fit, no node is outside the last wanted set. */
  lemma {:induction false} FedStaysInside(tries: seq<set<Node>>, wanteds: seq<set<Cidr>>, addeds: seq<set<Cidr>>)
    requires |tries| == |wanteds| == |addeds| + 1 && tries[0] == {} && wanteds[0] == {}
    requires forall i, c :: 0 <= i < |wanteds| && c in wanteds[i] ==> c.IsPrefix()
    requires forall i :: 0 <= i < |addeds| ==> Fed(tries[i], wanteds[i], wanteds[i + 1], addeds[i], tries[i + 1])
    ensures tries[|addeds|] <= NodesOf(wanteds[|addeds|], FeedNode)
  {
    var n := |addeds|;
    if n > 0 {
      FedStaysInside(tries[..n], wanteds[..n], addeds[..n - 1]);
      assert Fed(tries[n - 1], wanteds[n - 1], wanteds[n], addeds[n - 1], tries[n]);
      FeedsDistinct(wanteds[n - 1] + wanteds[n]);
      StaysInside(tries[n - 1], wanteds[n - 1], wanteds[n], addeds[n - 1], FeedNode);
    }
  }

  /**
   * A network once skipped is not tried again while it stays listed: missing from the trie although recorded as
   * loaded, it is missing after every later update that wants it throughout.
   */
  lemma {:induction false} SkippedStaysOut(tries: seq<set<Node>>, wanteds: seq<set<Cidr>>, addeds: seq<set<Cidr>>,
                                           c: Cidr)
    requires |tries| == |wanteds| == |addeds| + 1
    requires forall i :: 0 <= i < |wanteds| ==> c in wanteds[i] && forall d :: d in wanteds[i] ==> d.IsPrefix()
    requires forall i :: 0 <= i < |addeds| ==> Fed(tries[i], wanteds[i], wanteds[i + 1], addeds[i], tries[i + 1])
    ensures FeedNode(c) in tries[|addeds|] <==> FeedNode(c) in tries[0]
  {
    var n := |addeds|;
    if n > 0 {
      SkippedStaysOut(tries[..n], wanteds[..n], addeds[..n - 1], c);
      assert Fed(tries[n - 1], wanteds[n - 1], wanteds[n], addeds[n - 1], tries[n]);
      FeedsDistinct(wanteds[n - 1] + wanteds[n]);
      NotTouched(tries[n - 1], wanteds[n - 1], wanteds[n], addeds[n - 1], FeedNode, c);
    }
  }

  lemma NotTouched<E(!new)>(trie: set<Node>, have: set<E>, wanted: set<E>, added: set<E>, node: E -> Node, e: E)
    requires Distinct(have + wanted, node) && added <= wanted - have && e in have && e in wanted
    ensures node(e) in (trie - NodesOf(have - wanted, node)) + NodesOf(added, node) <==> node(e) in trie
  {
  }

  /** A trie after successful updates to each wanted set in turn. */
  function SyncedAll(nodes: set<Node>, have: set<Node>, wanteds: seq<set<Node>>): set<Node>
    decreases |wanteds|
  {
    if wanteds == [] then nodes
    else SyncedAll(Synced(nodes, have, wanteds[0]), wanteds[0], wanteds[1..])
  }

  function LastOf(have: set<Node>, wanteds: seq<set<Node>>): set<Node> {
    if wanteds == [] then have else wanteds[|wanteds| - 1]
  }

  /** Some update in the run adds or removes this node. */
  predicate Touched(n: Node, have: set<Node>, wanteds: seq<set<Node>>)
    decreases |wanteds|
  {
    wanteds != [] && ((n in have) != (n in wanteds[0]) || Touched(n, wanteds[0], wanteds[1..]))
  }

  /**
   * Over any run of successful updates, a node ends as the last wanted set says exactly when some update touched
   * it or trie and mirror agreed on it at the start.
   */
  lemma {:induction false} NodeResidueIff(n: Node, nodes: set<Node>, have: set<Node>, wanteds: seq<set<Node>>)
    ensures (n in SyncedAll(nodes, have, wanteds) <==> n in LastOf(have, wanteds)) <==>
            Touched(n, have, wanteds) || (n in nodes <==> n in have)
    decreases |wanteds|
  {
    if wanteds != [] {
      NodeResidueIff(n, Synced(nodes, have, wanteds[0]), wanteds[0], wanteds[1..]);
      assert LastOf(have, wanteds) == LastOf(wanteds[0], wanteds[1..]);
    }
  }

  /** From a trie that matches its mirror, diff updates leave no residue: the end is a load from scratch. */
  lemma NoResidue(have: set<Node>, wanteds: seq<set<Node>>)
    ensures SyncedAll(have, have, wanteds) == LastOf(have, wanteds)
  {
    forall n: Node ensures n in SyncedAll(have, have, wanteds) <==> n in LastOf(have, wanteds) {
      NodeResidueIff(n, have, have, wanteds);
    }
  }

  /**
   * After an update that stopped half way (`added` went in but not all, the mirror kept `have`), the next successful
   * update is clean exactly when it wants everything that went in and nothing that was taken out.
   */
  lemma HalfDoneThenSyncedIff(have: set<Node>, wanted: set<Node>, added: set<Node>, next: set<Node>)
    requires added < wanted - have
    ensures Synced((have - (have - wanted)) + added, have, next) == next <==>
            added <= next && have * next <= wanted
  {
    var half := (have - (have - wanted)) + added;
    var result := Synced(half, have, next);
    if result == next {
      forall n | n in added ensures n in next {
        assert n in half && n !in have;
      }
      forall n | n in have * next ensures n in wanted {
        assert n in result;
      }
    }
  }
}
