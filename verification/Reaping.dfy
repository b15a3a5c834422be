/** Deleting tombstones: what one round removes, what it leaves alone, and where repeated rounds end. */
module Reaping {
  import opened Wrappers
  import opened Collections
  import opened Forest
  import opened Ancestry

  /** One round removes exactly the childless nodes past their grace; every other node keeps all it
      records, its parent, and those of its children that are still there. */
  lemma ReapRemovesExactly(t: Table, now: Time, grace: nat)
    requires IsForest(t)
    ensures var t' := ReapStep(t, now, grace);
            && (forall k :: k in t'.nodes <==>
                  && k in t.nodes
                  && !(t.nodes[k].exitedAt.Some? && now > t.nodes[k].exitedAt.value + grace && t.nodes[k].children == {}))
            && (forall k | k in t'.nodes :: t'.nodes[k] == t.nodes[k].(children := t.nodes[k].children * t'.nodes.Keys))
            && t'.byTgid == t.byTgid
  {
    var t' := ReapStep(t, now, grace);
    forall k | k in t'.nodes
      ensures t'.nodes[k].children == t.nodes[k].children * t'.nodes.Keys
    {
      assert forall c | c in t.nodes[k].children :: c in t.nodes && t.nodes[c].parent == Some(k);
    }
  }

  /** A walk that starts at a survivor meets only survivors, in the same order as before. */
  lemma {:induction false} SurvivorPath(t: Table, now: Time, grace: nat, cur: Option<ProcKey>, ks: seq<ProcKey>)
    requires IsForest(t) && IsPath(t.nodes, cur, ks)
    requires cur.Some? ==> cur.value in ReapStep(t, now, grace).nodes
    ensures IsPath(ReapStep(t, now, grace).nodes, cur, ks)
    ensures forall k | k in ks :: k in ReapStep(t, now, grace).nodes
    decreases |ks|
  {
    if ks != [] {
      var k := cur.value;
      var up := t.nodes[k].parent;
      assert up.Some? ==> k in t.nodes[up.value].children;
      SurvivorPath(t, now, grace, up, ks[1..]);
      assert forall x | x in ks :: x == k || x in ks[1..];
    }
  }

  lemma SurvivorPathOf(t: Table, now: Time, grace: nat, k: ProcKey)
    requires IsForest(t) && k in ReapStep(t, now, grace).nodes
    ensures var nodes' := ReapStep(t, now, grace).nodes;
            && Ends(t.nodes, Some(k)) && Ends(nodes', Some(k)) && PathOf(nodes', Some(k)) == PathOf(t.nodes, Some(k))
            && (forall x | x in PathOf(t.nodes, Some(k)) :: x in nodes')
  {
    ForestWalksEnd(t.nodes);
    var nodes' := ReapStep(t, now, grace).nodes;
    var ks := PathOf(t.nodes, Some(k));
    SurvivorPath(t, now, grace, Some(k), ks);
    PathUnique(nodes', Some(k), ks, PathOf(nodes', Some(k)));
  }

  /** Reaping never shortens or changes the ancestry of a node it leaves in the table. */
  lemma ReapKeepsAncestry(t: Table, now: Time, grace: nat, k: ProcKey)
    requires IsForest(t) && k in ReapStep(t, now, grace).nodes
    ensures var nodes' := ReapStep(t, now, grace).nodes;
            && nodes'[k].parent == t.nodes[k].parent && RecordOf(nodes'[k]) == RecordOf(t.nodes[k])
            && Ends(t.nodes, t.nodes[k].parent) && Ends(nodes', nodes'[k].parent)
            && PathOf(nodes', nodes'[k].parent) == PathOf(t.nodes, t.nodes[k].parent)
            && AncestryRecords(nodes', k) == AncestryRecords(t.nodes, k)
  {
    ForestWalksEnd(t.nodes);
    var nodes' := ReapStep(t, now, grace).nodes;
    var up := t.nodes[k].parent;
    var ks := PathOf(t.nodes, up);
    assert up.Some? ==> k in t.nodes[up.value].children;
    SurvivorPath(t, now, grace, up, ks);
    PathUnique(nodes', up, ks, PathOf(nodes', up));
    PathLinks(t.nodes, up, ks);
    assert AncestryRecords(nodes', k) == AncestryRecords(t.nodes, k);
  }

  // ---------------------------------------------------------------- repeated rounds

  function ReapTimes(t: Table, now: Time, grace: nat, n: nat): Table
    decreases n
  {
    if n == 0 then t else ReapTimes(ReapStep(t, now, grace), now, grace, n - 1)
  }

  lemma DeadMember(t: Table, now: Time, grace: nat, k: ProcKey)
    requires IsForest(t)
    ensures k in Dead(t.nodes, now, grace) <==>
            k in t.nodes && PastGrace(t.nodes[k], now, grace) && t.nodes[k].children == {}
  {
  }

  lemma QuietReapChangesNothing(t: Table, now: Time, grace: nat)
    requires Dead(t.nodes, now, grace) == {}
    ensures ReapStep(t, now, grace) == t
  {
    forall k | k in t.nodes
      ensures ReapStep(t, now, grace).nodes[k] == t.nodes[k]
    {
      assert ReapStep(t, now, grace).nodes[k].children == t.nodes[k].children;
    }
    assert ReapStep(t, now, grace).nodes == t.nodes;
  }

  lemma BusyReapShrinks(t: Table, now: Time, grace: nat)
    requires IsForest(t) && Dead(t.nodes, now, grace) != {}
    ensures |ReapStep(t, now, grace).nodes| < |t.nodes|
  {
    var k :| k in Dead(t.nodes, now, grace);
    var rest := ReapStep(t, now, grace).nodes.Keys;
    assert k in t.nodes.Keys && rest <= t.nodes.Keys - {k};
    SubsetSize(rest, t.nodes.Keys - {k});
  }

  lemma BusyRound(t: Table, now: Time, grace: nat, n: nat)
    requires IsForest(t) && |t.nodes| <= n && Dead(t.nodes, now, grace) != {}
    ensures n > 0 && IsForest(ReapStep(t, now, grace)) && |ReapStep(t, now, grace).nodes| <= n - 1
  {
    BusyReapShrinks(t, now, grace);
    ReapKeepsForest(t, now, grace);
  }

  lemma {:induction false} ReapTimesSettles(t: Table, now: Time, grace: nat, n: nat)
    requires IsForest(t) && |t.nodes| <= n
    ensures Dead(ReapTimes(t, now, grace, n).nodes, now, grace) == {}
    decreases n
  {
    hide ReapStep, IsForest, Dead;
    if Dead(t.nodes, now, grace) == {} {
      QuietReapTimes(t, now, grace, n);
    } else {
      BusyRound(t, now, grace, n);
      ReapTimesSettles(ReapStep(t, now, grace), now, grace, n - 1);
    }
  }

  lemma {:induction false} QuietReapTimes(t: Table, now: Time, grace: nat, n: nat)
    requires Dead(t.nodes, now, grace) == {}
    ensures ReapTimes(t, now, grace, n) == t
  {
    if n > 0 {
      QuietReapChangesNothing(t, now, grace);
      QuietReapTimes(t, now, grace, n - 1);
    }
  }

  /** Some node that is not a past-grace tombstone is `k` itself or has `k` among its ancestors. */
  ghost predicate Needed(nodes: Nodes, now: Time, grace: nat, k: ProcKey) {
    exists d :: NeededBy(nodes, now, grace, k, d)
  }

  ghost predicate NeededBy(nodes: Nodes, now: Time, grace: nat, k: ProcKey, d: ProcKey) {
    d in nodes && !PastGrace(nodes[d], now, grace) && Ends(nodes, Some(d)) && k in PathOf(nodes, Some(d))
  }

  lemma ReapKeepsNeeded(t: Table, now: Time, grace: nat, k: ProcKey)
    requires IsForest(t)
    ensures Needed(t.nodes, now, grace, k) <==> Needed(ReapStep(t, now, grace).nodes, now, grace, k)
  {
    var nodes' := ReapStep(t, now, grace).nodes;
    forall d | d in nodes' && !PastGrace(nodes'[d], now, grace)
      ensures NeededBy(nodes', now, grace, k, d) <==> NeededBy(t.nodes, now, grace, k, d)
    {
      SurvivorPathOf(t, now, grace, d);
    }
    forall d | NeededBy(t.nodes, now, grace, k, d)
      ensures d in nodes' && !PastGrace(nodes'[d], now, grace)
    {
      ReapRemovesExactly(t, now, grace);
    }
  }

  lemma {:induction false} PathClimbs(nodes: Nodes, cur: Option<ProcKey>, ks: seq<ProcKey>, c: ProcKey, p: ProcKey)
    requires IsPath(nodes, cur, ks) && c in ks
    requires c in nodes && nodes[c].parent == Some(p) && p in nodes
    ensures p in ks
    decreases |ks|
  {
    if ks[0] == c {
      assert ks[1..][0] == p;
    } else {
      assert c in ks[1..];
      PathClimbs(nodes, nodes[ks[0]].parent, ks[1..], c, p);
    }
  }

  ghost function Deeper(nodes: Nodes, rank: ProcKey -> nat, k: ProcKey): set<ProcKey> {
    set x | x in nodes && rank(x) > rank(k)
  }

  /** With nothing left to reap, every node is needed: descend from child to child. */
  lemma {:induction false} QuietMeansNeeded(t: Table, now: Time, grace: nat, rank: ProcKey -> nat, k: ProcKey)
    requires IsForest(t) && RankedBy(t.nodes, rank) && Dead(t.nodes, now, grace) == {} && k in t.nodes
    ensures Needed(t.nodes, now, grace, k)
    decreases Deeper(t.nodes, rank, k)
  {
    ForestWalksEnd(t.nodes);
    if !PastGrace(t.nodes[k], now, grace) {
      assert PathOf(t.nodes, Some(k))[0] == k;
      assert NeededBy(t.nodes, now, grace, k, k);
    } else {
      DeadMember(t, now, grace, k);
      var c :| c in t.nodes[k].children;
      assert t.nodes[c].parent == Some(k);
      assert c in Deeper(t.nodes, rank, k) && c !in Deeper(t.nodes, rank, c);
      QuietMeansNeeded(t, now, grace, rank, c);
      var d :| NeededBy(t.nodes, now, grace, c, d);
      PathClimbs(t.nodes, Some(d), PathOf(t.nodes, Some(d)), c, k);
      assert NeededBy(t.nodes, now, grace, k, d);
    }
  }

  /** The node `k` is in both tables, with the same ancestry as a list of records. */
  ghost predicate SameAncestry(before: Nodes, after: Nodes, k: ProcKey) {
    && k in before && Ends(before, before[k].parent) && k in after && Ends(after, after[k].parent)
    && AncestryRecords(after, k) == AncestryRecords(before, k)
  }

  lemma ReapStepKeeps(t: Table, now: Time, grace: nat, k: ProcKey)
    requires IsForest(t)
    ensures var t' := ReapStep(t, now, grace);
            && IsForest(t') && (Needed(t.nodes, now, grace, k) <==> Needed(t'.nodes, now, grace, k))
            && (k in t'.nodes ==> SameAncestry(t.nodes, t'.nodes, k))
  {
    ReapKeepsForest(t, now, grace);
    ReapKeepsNeeded(t, now, grace, k);
    hide Needed, IsPath, PathOf;
    if k in ReapStep(t, now, grace).nodes { ReapKeepsAncestry(t, now, grace, k); }
  }

  lemma SameAncestryAsItself(t: Table, k: ProcKey)
    requires IsForest(t) && k in t.nodes
    ensures SameAncestry(t.nodes, t.nodes, k)
  {
    ForestWalksEnd(t.nodes);
  }

  lemma {:induction false} ReapTimesKeeps(t: Table, now: Time, grace: nat, n: nat, k: ProcKey)
    requires IsForest(t)
    ensures var r := ReapTimes(t, now, grace, n);
            && IsForest(r) && (Needed(t.nodes, now, grace, k) <==> Needed(r.nodes, now, grace, k))
            && (k in r.nodes ==> SameAncestry(t.nodes, r.nodes, k))
    decreases n
  {
    hide ReapStep, IsForest, Needed, IsPath, PathOf, Ends, AncestryRecords;
    if n == 0 {
      if k in t.nodes { SameAncestryAsItself(t, k); }
    } else {
      ReapStepKeeps(t, now, grace, k);
      ReapTimesKeeps(ReapStep(t, now, grace), now, grace, n - 1, k);
    }
  }

  lemma NeededIsPresent(nodes: Nodes, now: Time, grace: nat, k: ProcKey)
    requires Needed(nodes, now, grace, k)
    ensures k in nodes
  {
    var d :| NeededBy(nodes, now, grace, k, d);
    PathLinks(nodes, Some(d), PathOf(nodes, Some(d)));
  }

  /** Reaping at a fixed time comes to rest within as many rounds as there are nodes. What is left is
      exactly the nodes some live or recently exited process still needs, with unchanged ancestries. */
  lemma ReapingConverges(t: Table, now: Time, grace: nat, n: nat, k: ProcKey)
    requires IsForest(t) && |t.nodes| <= n
    ensures ReapStep(ReapTimes(t, now, grace, n), now, grace) == ReapTimes(t, now, grace, n)
    ensures k in ReapTimes(t, now, grace, n).nodes <==> Needed(t.nodes, now, grace, k)
    ensures k in ReapTimes(t, now, grace, n).nodes ==> SameAncestry(t.nodes, ReapTimes(t, now, grace, n).nodes, k)
  {
    var r := ReapTimes(t, now, grace, n);
    ReapTimesSettles(t, now, grace, n);
    ReapTimesKeeps(t, now, grace, n, k);
    QuietReapChangesNothing(r, now, grace);
    if Needed(r.nodes, now, grace, k) { NeededIsPresent(r.nodes, now, grace, k); }
    if k in r.nodes {
      var rank: ProcKey -> nat :| RankedBy(r.nodes, rank);
      QuietMeansNeeded(r, now, grace, rank, k);
    }
  }
}
