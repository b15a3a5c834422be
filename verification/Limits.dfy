/** How far the table's answers reach: when a process's reported ancestry is lost, and which nodes are never reaped. */
module Limits {
  import opened Wrappers
  import opened Forest
  import opened Ancestry
  import opened Reaping
  import opened Stability
  import opened Seeding

  // ---------------------------------------------------------------- a process's own first event

  /** What a lookup by `key` and the walk up from there report: the records of the ancestors, nearest first. */
  ghost function Reported(t: Table, key: ProcKey): seq<Record>
    requires IsForest(t)
  {
    ForestWalksEnd(t.nodes);
    var n := Resolve(t, key);
    if n.None? then []
    else
      var ks := PathOf(t.nodes, n.value.parent);
      PathLinks(t.nodes, n.value.parent, ks);
      RecordsOf(NodesAt(t.nodes, ks))
  }

  lemma ReportedOf(t: Table, key: ProcKey, k: ProcKey)
    requires IsForest(t) && k in t.nodes && Resolve(t, key) == Some(t.nodes[k])
    ensures Ends(t.nodes, t.nodes[k].parent) && Reported(t, key) == AncestryRecords(t.nodes, k)
    ensures Reported(t, key) == [] <==> t.nodes[k].parent.None?
  {
    ForestWalksEnd(t.nodes);
    AncestryIsSimple(t, k);
  }

  /** The node that a lookup finds before the event is the one it finds after, or there is nothing to lose. */
  predicate KeepsReport(t: Table, key: ProcKey) {
    || key in t.nodes
    || if Promotes(t, key) then key.tgid in t.byTgid || t.nodes[Placeholder(key.tgid)].parent.None?
       else Resolve(t, key).None? || Resolve(t, key).value.parent.None?
  }

  /** A process's own event leaves its reported ancestry as it was exactly when its key is known, or its indexed
      placeholder is promoted, or the ancestry was empty; otherwise the process is cut off from its parent. */
  lemma EnsureKeepsReportIff(t: Table, key: ProcKey)
    requires IsForest(t) && PlaceholderIndexed(t) && EnsureSafe(t, key)
    ensures IsForest(EnsureStep(t, key))
    ensures Reported(EnsureStep(t, key), key) == Reported(t, key) <==> KeepsReport(t, key)
  {
    EnsureKeepsForestIff(t, key);
    if Promotes(t, key) {
      PromotedReport(t, key);
    } else if key !in t.nodes {
      FreshReport(t, key);
    }
  }

  lemma PromotedReport(t: Table, key: ProcKey)
    requires IsForest(t) && PlaceholderIndexed(t) && Promotes(t, key) && IsForest(PromoteStep(t, key))
    ensures Reported(PromoteStep(t, key), key) == Reported(t, key) <==> KeepsReport(t, key)
  {
    var from, t' := Placeholder(key.tgid), PromoteStep(t, key);
    PromotionIsInvisible(t, key, from);
    hide PromoteStep;
    ReportedOf(t', key, key);
    ReportedOf(t, from, from);
    if key.tgid in t.byTgid { ReportedOf(t, key, from); }
  }

  lemma FreshReport(t: Table, key: ProcKey)
    requires IsForest(t) && key !in t.nodes && IsForest(FreshStep(t, key))
    ensures Reported(FreshStep(t, key), key) == []
    ensures Reported(t, key) == [] <==> Resolve(t, key).None? || Resolve(t, key).value.parent.None?
  {
    var t' := FreshStep(t, key);
    assert t'.nodes[key].parent.None?;
    ReportedOf(t', key, key);
    if Resolve(t, key).Some? { ReportedOf(t, key, t.byTgid[key.tgid]); }
  }

  lemma SeededNodeOf(ps: seq<ProcInfo>, p: ProcInfo, q: ProcInfo)
    requires DistinctTgids(ps) && p in ps && q in ps && p.ppid == q.tgid
    ensures var t := SeedStep(EMPTY_TABLE, ps);
            && KeyOf(p) in t.nodes && t.nodes[KeyOf(p)].parent == Some(KeyOf(q)) && t.nodes[KeyOf(p)].exitedAt.None?
            && Lookup(t.byTgid, p.tgid) == Some(KeyOf(p))
            && forall k | k in t.nodes && k.tgid == p.tgid :: k == KeyOf(p)
  {
    SeedIsExact(ps);
    SnapshotIsExact(ps);
    assert IsKeyOf(SnapshotOf(ps), KeyOf(p)) && IsKeyOf(SnapshotOf(ps), KeyOf(q));
  }

  /** A seeded process whose first own event carries a start time other than the seeded one is cut off from its
      parent, although every event so far was safe: the lookup moves to a second node without a parent. */
  lemma SeededProcessLosesParent(ps: seq<ProcInfo>, p: ProcInfo, q: ProcInfo, start: nat,
                                 comm: string, uid: nat, argv: seq<string>)
    requires DistinctTgids(ps) && AcyclicPpids(SnapshotOf(ps)) && p in ps && q in ps && p.ppid == q.tgid
    requires p.startTimeNs != 0 && start != 0 && start != p.startTimeNs
    ensures var t, key := SeedStep(EMPTY_TABLE, ps), ProcKey(p.tgid, start);
            var e := Exec(key, comm, uid, argv);
            var t' := Step(t, e);
            && IsForest(t) && Safe(t, e) && IsForest(t')
            && Resolve(t, key).Some? && Resolve(t, key).value.parent == Some(KeyOf(q)) && Reported(t, key) != []
            && Resolve(t', key).Some? && Resolve(t', key).value.parent == None && Reported(t', key) == []
            && KeyOf(p) in t'.nodes && t'.nodes[KeyOf(p)].parent == Some(KeyOf(q))
  {
    var t, key := SeedStep(EMPTY_TABLE, ps), ProcKey(p.tgid, start);
    var e := Exec(key, comm, uid, argv);
    SeedIsForestIff(ps);
    SeededNodeOf(ps, p, q);
    hide SeedStep;
    assert key !in t.nodes && Placeholder(p.tgid) !in t.nodes;
    StepKeepsForestIff(t, e);
    ReportedOf(t, key, KeyOf(p));
    ReportedOf(Step(t, e), key, key);
  }

  // ---------------------------------------------------------------- which exits are noticed

  predicate ExitsExactly(e: Event, k: ProcKey) {
    e.Exit? && e.groupDead && e.key == k
  }

  predicate Unmarked(t: Table, k: ProcKey) {
    k in t.nodes && t.nodes[k].exitedAt.None?
  }

  /** One event marks or removes an unmarked node if and only if it is the group's death under the node's own key,
      or, for a placeholder, under any key of its tgid that has no node. */
  lemma StepMarksIff(t: Table, e: Event, k: ProcKey)
    requires Keyed(t) && Unmarked(t, k)
    ensures Unmarked(Step(t, e), KeyAfter(t, e, k)) <==>
            !(e.Exit? && e.groupDead && (e.key == k || (k == Placeholder(e.key.tgid) && e.key !in t.nodes)))
  {
    match e
    case Fork(_, _) =>
    case Exec(key, _, _, _) => EnsureKeepsUnmarked(t, e, key, k);
    case ProcExec(key, _) => EnsureKeepsUnmarked(t, e, key, k);
    case Exit(_, _, _) =>
    case Reap(_, _) =>
  }

  lemma EnsureKeepsUnmarked(t: Table, e: Event, key: ProcKey, k: ProcKey)
    requires Unmarked(t, k) && (e.Exec? || e.ProcExec?) && e.key == key
    ensures Unmarked(EnsureStep(t, key), KeyAfter(t, e, k))
  {
  }

  lemma StepMarksRealIff(t: Table, e: Event, k: ProcKey)
    requires Keyed(t) && k.startTime != 0 && Unmarked(t, k)
    ensures Unmarked(Step(t, e), k) <==> !ExitsExactly(e, k)
  {
    StepMarksIff(t, e, k);
  }

  ghost predicate UnmarkedThroughout(t: Table, es: seq<Event>, k: ProcKey) {
    forall n | 0 <= n <= |es| :: Unmarked(Run(t, es[..n]), k)
  }

  predicate NeverExits(es: seq<Event>, k: ProcKey) {
    forall i | 0 <= i < |es| :: !ExitsExactly(es[i], k)
  }

  lemma OnePrefixMore(t: Table, es: seq<Event>, e: Event, k: ProcKey)
    ensures UnmarkedThroughout(t, es + [e], k) <==> UnmarkedThroughout(t, es, k) && Unmarked(Step(Run(t, es), e), k)
    ensures NeverExits(es + [e], k) <==> NeverExits(es, k) && !ExitsExactly(e, k)
    ensures UnmarkedThroughout(t, es, k) ==> Unmarked(Run(t, es), k)
  {
    hide Unmarked, ExitsExactly, Run;
    var all := es + [e];
    assert all[..|all|] == all && es[..|es|] == es;
    assert forall n | 0 <= n <= |es| :: all[..n] == es[..n];
    assert all[|es|] == e && forall i | 0 <= i < |es| :: all[i] == es[i];
    RunOne(t, es, e);
  }

  /** Over any run, safe or not: a node under a real key is neither marked nor gone after any prefix, if and
      only if no event says that the group died under exactly that key. */
  lemma {:induction false} StaysUnmarkedIff(t: Table, es: seq<Event>, k: ProcKey)
    requires Keyed(t) && PlaceholderIndexed(t) && t.pendingParent == map[]
    requires k.startTime != 0 && Unmarked(t, k)
    ensures UnmarkedThroughout(t, es, k) <==> NeverExits(es, k)
  {
    if es == [] {
      assert es[..0] == es;
    } else {
      hide *;
      var front, last := es[..|es| - 1], es[|es| - 1];
      assert es == front + [last];
      StaysUnmarkedIff(t, front, k);
      AnyRunKeepsIndex(t, front);
      OnePrefixMore(t, front, last, k);
      if Unmarked(Run(t, front), k) { StepMarksRealIff(Run(t, front), last, k); }
    }
  }

  // ---------------------------------------------------------------- which nodes leave the table

  /** Every exit mark is past its grace. */
  ghost predicate Late(nodes: Nodes, now: Time, grace: nat) {
    forall d {:trigger nodes[d].exitedAt} | d in nodes && nodes[d].exitedAt.Some? :: now > nodes[d].exitedAt.value + grace
  }

  /** `d` is `k` or has `k` among its ancestors. */
  ghost predicate AtOrBelow(nodes: Nodes, d: ProcKey, k: ProcKey) {
    d in nodes && Ends(nodes, Some(d)) && k in PathOf(nodes, Some(d))
  }

  /** Once every mark is past its grace, repeated rounds delete a node if and only if it and everything below it
      are marked. */
  lemma ReapedIffAllMarked(t: Table, now: Time, grace: nat, n: nat, k: ProcKey)
    requires IsForest(t) && |t.nodes| <= n && Late(t.nodes, now, grace)
    ensures k !in ReapTimes(t, now, grace, n).nodes <==>
            forall d | AtOrBelow(t.nodes, d, k) :: t.nodes[d].exitedAt.Some?
  {
    ReapingConverges(t, now, grace, n, k);
    forall d | d in t.nodes
      ensures PastGrace(t.nodes[d], now, grace) <==> t.nodes[d].exitedAt.Some?
    {
    }
    if d :| AtOrBelow(t.nodes, d, k) && t.nodes[d].exitedAt.None? {
      assert NeededBy(t.nodes, now, grace, k, d);
    }
    if Needed(t.nodes, now, grace, k) {
      var d :| NeededBy(t.nodes, now, grace, k, d);
      assert AtOrBelow(t.nodes, d, k);
    }
  }

  lemma RunStaysForest(t: Table, es: seq<Event>)
    requires IsForest(t) && SafeRun(t, es)
    ensures IsForest(Run(t, es))
  {
    RunKeepsForestIff(t, es);
    assert es[..|es|] == es;
  }

  /** A seeded process for which no exit under exactly its seeded key arrives is never reaped, however long it has
      been dead, and neither is any of its ancestors. */
  lemma SeededProcessStays(ps: seq<ProcInfo>, p: ProcInfo, es: seq<Event>, now: Time, grace: nat, n: nat)
    requires DistinctTgids(ps) && AcyclicPpids(SnapshotOf(ps)) && p in ps && p.startTimeNs != 0
    requires SafeRun(SeedStep(EMPTY_TABLE, ps), es)
    requires NeverExits(es, KeyOf(p))
    ensures var t := Run(SeedStep(EMPTY_TABLE, ps), es);
            && Ends(t.nodes, Some(KeyOf(p))) && KeyOf(p) in PathOf(t.nodes, Some(KeyOf(p)))
            && forall k | k in PathOf(t.nodes, Some(KeyOf(p))) :: k in ReapTimes(t, now, grace, n).nodes
  {
    var seeded, me := SeedStep(EMPTY_TABLE, ps), KeyOf(p);
    SeedIsForestIff(ps);
    SeededIsUnmarked(ps, p);
    hide SeedStep;
    StaysUnmarkedIff(seeded, es, me);
    assert es[..|es|] == es;
    var t := Run(seeded, es);
    RunStaysForest(seeded, es);
    ForestWalksEnd(t.nodes);
    assert PathOf(t.nodes, Some(me))[0] == me;
    forall k | k in PathOf(t.nodes, Some(me))
      ensures k in ReapTimes(t, now, grace, n).nodes
    {
      assert NeededBy(t.nodes, now, grace, k, me);
      ReapTimesKeeps(t, now, grace, n, k);
      NeededIsPresent(ReapTimes(t, now, grace, n).nodes, now, grace, k);
    }
  }

  lemma SeededIsUnmarked(ps: seq<ProcInfo>, p: ProcInfo)
    requires DistinctTgids(ps) && p in ps
    ensures Unmarked(SeedStep(EMPTY_TABLE, ps), KeyOf(p))
  {
    SeedIsExact(ps);
    SnapshotIsExact(ps);
    assert IsKeyOf(SnapshotOf(ps), KeyOf(p));
  }
}
