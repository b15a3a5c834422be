/** Walking up the parent links, and what the table's rewrites do to the walks. */
module Ancestry {
  import opened Wrappers
  import opened Collections
  import opened Forest

  /** `ks` are the keys met when following parents from `cur` until there is no node to go to. */
  predicate IsPath(nodes: Nodes, cur: Option<ProcKey>, ks: seq<ProcKey>)
    decreases |ks|
  {
    if cur.None? || cur.value !in nodes then ks == []
    else ks != [] && ks[0] == cur.value && IsPath(nodes, nodes[cur.value].parent, ks[1..])
  }

  ghost predicate Ends(nodes: Nodes, cur: Option<ProcKey>) {
    exists ks :: IsPath(nodes, cur, ks)
  }

  lemma {:induction false} PathUnique(nodes: Nodes, cur: Option<ProcKey>, ks: seq<ProcKey>, ls: seq<ProcKey>)
    requires IsPath(nodes, cur, ks) && IsPath(nodes, cur, ls)
    ensures ks == ls
    decreases |ks|
  {
    if ks != [] {
      PathUnique(nodes, nodes[cur.value].parent, ks[1..], ls[1..]);
      assert ks == [ks[0]] + ks[1..] && ls == [ls[0]] + ls[1..];
    }
  }

  ghost function PathOf(nodes: Nodes, cur: Option<ProcKey>): (ks: seq<ProcKey>)
    requires Ends(nodes, cur)
    ensures IsPath(nodes, cur, ks)
  {
    var ks :| IsPath(nodes, cur, ks);
    ks
  }

  /** The nodes found at `ks`, in that order. */
  function NodesAt(nodes: Nodes, ks: seq<ProcKey>): (r: seq<ProcNode>)
    requires forall k | k in ks :: k in nodes
    ensures |r| == |ks| && forall i | 0 <= i < |ks| :: r[i] == nodes[ks[i]]
  {
    if ks == [] then [] else [nodes[ks[0]]] + NodesAt(nodes, ks[1..])
  }

  lemma {:induction false} PathLinks(nodes: Nodes, cur: Option<ProcKey>, ks: seq<ProcKey>)
    requires IsPath(nodes, cur, ks)
    ensures forall k | k in ks :: k in nodes
    ensures ks != [] ==> cur == Some(ks[0])
    ensures forall i | 0 < i < |ks| :: nodes[ks[i - 1]].parent == Some(ks[i])
    ensures var last := if ks == [] then cur else nodes[ks[|ks| - 1]].parent;
            last.None? || last.value !in nodes
    decreases |ks|
  {
    if ks != [] {
      PathLinks(nodes, nodes[ks[0]].parent, ks[1..]);
      assert forall k | k in ks :: k == ks[0] || k in ks[1..];
      forall i | 0 < i < |ks|
        ensures nodes[ks[i - 1]].parent == Some(ks[i])
      {
        assert ks[i] == ks[1..][i - 1];
        if i > 1 { assert ks[i - 1] == ks[1..][i - 2]; }
      }
      if |ks| > 1 { assert ks[|ks| - 1] == ks[1..][|ks| - 2]; }
    }
  }

  // ---------------------------------------------------------------- the walk ends in a forest

  lemma {:induction false} RankedWalkEnds(nodes: Nodes, rank: ProcKey -> nat, cur: Option<ProcKey>)
    requires RankedBy(nodes, rank)
    ensures Ends(nodes, cur)
    decreases if cur.Some? then rank(cur.value) + 1 else 0
  {
    if cur.None? || cur.value !in nodes {
      assert IsPath(nodes, cur, []);
    } else {
      var up := nodes[cur.value].parent;
      RankedWalkEnds(nodes, rank, up);
      var ks := PathOf(nodes, up);
      assert ([cur.value] + ks)[1..] == ks;
      assert IsPath(nodes, cur, [cur.value] + ks);
    }
  }

  lemma ForestWalksEnd(nodes: Nodes)
    requires Acyclic(nodes)
    ensures forall cur :: Ends(nodes, cur)
  {
    var rank: ProcKey -> nat :| RankedBy(nodes, rank);
    forall cur ensures Ends(nodes, cur) { RankedWalkEnds(nodes, rank, cur); }
  }

  ghost function Height(nodes: Nodes): ProcKey -> nat {
    k => if Ends(nodes, Some(k)) then |PathOf(nodes, Some(k))| else 0
  }

  /** The parent links are acyclic exactly when every walk ends. */
  lemma AcyclicIffWalksEnd(nodes: Nodes)
    requires forall k | k in nodes && nodes[k].parent.Some? :: nodes[k].parent.value in nodes
    ensures Acyclic(nodes) <==> forall k | k in nodes :: Ends(nodes, Some(k))
  {
    if Acyclic(nodes) {
      ForestWalksEnd(nodes);
    }
    if forall k | k in nodes :: Ends(nodes, Some(k)) {
      forall k | k in nodes && nodes[k].parent.Some?
        ensures Height(nodes)(nodes[k].parent.value) < Height(nodes)(k)
      {
        var ks := PathOf(nodes, Some(k));
        PathUnique(nodes, nodes[k].parent, ks[1..], PathOf(nodes, nodes[k].parent));
      }
      assert RankedBy(nodes, Height(nodes));
    }
  }

  lemma {:induction false} PathRanksFall(nodes: Nodes, rank: ProcKey -> nat, cur: Option<ProcKey>, ks: seq<ProcKey>)
    requires RankedBy(nodes, rank) && IsPath(nodes, cur, ks)
    ensures forall i, j | 0 <= i < j < |ks| :: rank(ks[j]) < rank(ks[i])
    decreases |ks|
  {
    if ks != [] {
      PathLinks(nodes, cur, ks);
      PathRanksFall(nodes, rank, nodes[ks[0]].parent, ks[1..]);
      forall i, j | 0 <= i < j < |ks|
        ensures rank(ks[j]) < rank(ks[i])
      {
        assert ks[j] == ks[1..][j - 1];
        if i > 0 {
          assert ks[i] == ks[1..][i - 1];
        } else if j > 1 {
          assert ks[1] == ks[1..][0];
          assert rank(ks[j]) < rank(ks[1]);
        }
      }
    }
  }

  /** In a forest an ancestry visits pairwise distinct nodes, never the start, and ends at a root. */
  lemma AncestryIsSimple(t: Table, key: ProcKey)
    requires IsForest(t) && key in t.nodes
    ensures Ends(t.nodes, t.nodes[key].parent)
    ensures var ks := PathOf(t.nodes, t.nodes[key].parent);
            && |ks| < |t.nodes|
            && key !in ks
            && (forall i, j | 0 <= i < j < |ks| :: ks[i] != ks[j])
            && (ks == [] ==> t.nodes[key].parent.None?)
            && (ks != [] ==> ks[|ks| - 1] in t.nodes && t.nodes[ks[|ks| - 1]].parent.None?)
  {
    ForestWalksEnd(t.nodes);
    var rank: ProcKey -> nat :| RankedBy(t.nodes, rank);
    var ks := PathOf(t.nodes, t.nodes[key].parent);
    var all := [key] + ks;
    assert all[1..] == ks;
    assert IsPath(t.nodes, Some(key), all);
    PathLinks(t.nodes, Some(key), all);
    PathRanksFall(t.nodes, rank, Some(key), all);
    forall i, j | 0 <= i < j < |ks|
      ensures ks[i] != ks[j]
    {
      assert all[i + 1] == ks[i] && all[j + 1] == ks[j];
    }
    forall j | 0 <= j < |ks|
      ensures ks[j] != key
    {
      assert all[j + 1] == ks[j] && all[0] == key;
    }
    DistinctFit(all, t.nodes.Keys);
  }

  // ---------------------------------------------------------------- promotion is invisible

  /** What a node records about its process, as the alerts and rules see it. */
  datatype Record = Record(exe: string, comm: string, argv: seq<string>, uid: nat)

  function RecordOf(n: ProcNode): Record {
    Record(n.exe, n.comm, n.argv, n.uid)
  }

  function RecordsOf(nodes: seq<ProcNode>): (r: seq<Record>)
    ensures |r| == |nodes| && forall i | 0 <= i < |r| :: r[i] == RecordOf(nodes[i])
  {
    seq(|nodes|, i requires 0 <= i < |nodes| => RecordOf(nodes[i]))
  }

  ghost function AncestryRecords(nodes: Nodes, k: ProcKey): seq<Record>
    requires k in nodes && Ends(nodes, nodes[k].parent)
  {
    var ks := PathOf(nodes, nodes[k].parent);
    PathLinks(nodes, nodes[k].parent, ks);
    RecordsOf(NodesAt(nodes, ks))
  }

  function RenamedSeq(ks: seq<ProcKey>, from: ProcKey, to: ProcKey): (r: seq<ProcKey>)
    ensures |r| == |ks| && forall i | 0 <= i < |r| :: r[i] == Renamed(ks[i], from, to)
  {
    seq(|ks|, i requires 0 <= i < |ks| => Renamed(ks[i], from, to))
  }

  lemma {:induction false} RenamedPath(nodes: Nodes, from: ProcKey, to: ProcKey, cur: Option<ProcKey>, ks: seq<ProcKey>)
    requires from in nodes && to !in nodes && Mirrored(nodes) && IsPath(nodes, cur, ks)
    requires cur.Some? ==> cur.value in nodes
    ensures IsPath(RenamedNodes(nodes, from, to), RenamedOption(cur, from, to), RenamedSeq(ks, from, to))
    decreases |ks|
  {
    if ks != [] {
      var k := cur.value;
      RenamedPath(nodes, from, to, nodes[k].parent, ks[1..]);
      var rs := RenamedSeq(ks, from, to);
      assert rs[1..] == RenamedSeq(ks[1..], from, to);
    }
  }

  lemma RenamedRecords(nodes: Nodes, from: ProcKey, to: ProcKey, ks: seq<ProcKey>)
    requires from in nodes && to !in nodes && forall k | k in ks :: k in nodes
    ensures var after, rs := RenamedNodes(nodes, from, to), RenamedSeq(ks, from, to);
            (forall k | k in rs :: k in after) && RecordsOf(NodesAt(after, rs)) == RecordsOf(NodesAt(nodes, ks))
  {
    var after, rs := RenamedNodes(nodes, from, to), RenamedSeq(ks, from, to);
    forall i | 0 <= i < |ks|
      ensures rs[i] in after && RecordOf(after[rs[i]]) == RecordOf(nodes[ks[i]])
    {
      assert ks[i] in nodes;
    }
    assert RecordsOf(NodesAt(after, rs)) == RecordsOf(NodesAt(nodes, ks));
  }

  /** Renaming a placeholder changes no process's ancestry as a list of records: each path is the
      old one with the key replaced, and what is recorded along it is the same. */
  lemma PromotionIsInvisible(t: Table, key: ProcKey, k: ProcKey)
    requires IsForest(t) && Promotes(t, key) && k in t.nodes
    ensures var from := Placeholder(key.tgid);
            var after := PromoteStep(t, key).nodes;
            var k' := Renamed(k, from, key);
            && k' in after && RecordOf(after[k']) == RecordOf(t.nodes[k])
            && Ends(t.nodes, t.nodes[k].parent) && Ends(after, after[k'].parent)
            && PathOf(after, after[k'].parent) == RenamedSeq(PathOf(t.nodes, t.nodes[k].parent), from, key)
            && AncestryRecords(after, k') == AncestryRecords(t.nodes, k)
  {
    var from := Placeholder(key.tgid);
    PromotionRenamesEverywhere(t, key);
    hide PromoteStep;
    ForestWalksEnd(t.nodes);
    var after, k' := RenamedNodes(t.nodes, from, key), Renamed(k, from, key);
    var ks := PathOf(t.nodes, t.nodes[k].parent);
    PathLinks(t.nodes, t.nodes[k].parent, ks);
    RenamedPath(t.nodes, from, key, t.nodes[k].parent, ks);
    PathUnique(after, after[k'].parent, RenamedSeq(ks, from, key), PathOf(after, after[k'].parent));
    RenamedRecords(t.nodes, from, key, ks);
    assert AncestryRecords(after, k') == AncestryRecords(t.nodes, k);
  }

  /** Looking the process up by either of its keys gives the same record before and after a promotion,
      except that the new key finds nothing before when the process is not indexed. */
  lemma PromotionKeepsLookups(t: Table, key: ProcKey)
    requires IsForest(t) && PlaceholderIndexed(t) && Promotes(t, key)
    ensures var from := Placeholder(key.tgid);
            var t' := PromoteStep(t, key);
            && Resolve(t, from).Some? && Resolve(t', from).Some? && Resolve(t', key).Some?
            && RecordOf(Resolve(t', from).value) == RecordOf(Resolve(t, from).value)
            && (Resolve(t, key).Some? <==> key.tgid in t.byTgid)
            && (key.tgid in t.byTgid ==> RecordOf(Resolve(t', key).value) == RecordOf(Resolve(t, key).value))
  {
  }

  // ---------------------------------------------------------------- why the hypothesis is needed

  lemma {:induction false} CycleNeverEnds(nodes: Nodes, a: ProcKey, b: ProcKey, ks: seq<ProcKey>)
    requires a in nodes && b in nodes && nodes[a].parent == Some(b) && nodes[b].parent == Some(a)
    ensures !IsPath(nodes, Some(a), ks)
    decreases |ks|
  {
    if IsPath(nodes, Some(a), ks) && |ks| > 1 {
      CycleNeverEnds(nodes, a, b, ks[1..][1..]);
    }
  }

  lemma RunOne(t: Table, es: seq<Event>, e: Event)
    ensures Run(t, es + [e]) == Step(Run(t, es), e)
  {
  }

  lemma RunThree(t: Table, e0: Event, e1: Event, e2: Event)
    ensures Run(t, [e0, e1, e2]) == Step(Step(Step(t, e0), e1), e2)
  {
    RunOne(t, [], e0);
    RunOne(t, [e0], e1);
    RunOne(t, [e0, e1], e2);
    assert [] + [e0] == [e0] && [e0] + [e1] == [e0, e1] && [e0, e1] + [e2] == [e0, e1, e2];
  }

  /** After a forks t and t forks c, t is the parent of c. */
  lemma ForkTwice(a: Tgid, t: Tgid, c: Tgid) returns (r: Table)
    requires a != t && t != c && a != c
    ensures r == Step(Step(EMPTY_TABLE, Fork(a, t)), Fork(t, c))
    ensures IsForest(r)
    ensures r.nodes.Keys == {Placeholder(t), Placeholder(c)}
    ensures r.nodes[Placeholder(c)].parent == Some(Placeholder(t)) && Lookup(r.byTgid, c) == Some(Placeholder(c))
  {
    assert RankedBy(EMPTY_TABLE.nodes, (k: ProcKey) => 0);
    var t1 := Step(EMPTY_TABLE, Fork(a, t));
    StepKeepsForestIff(EMPTY_TABLE, Fork(a, t));
    assert t1.nodes.Keys == {Placeholder(t)} && t1.byTgid == map[t := Placeholder(t)];
    r := Step(t1, Fork(t, c));
    StepKeepsForestIff(t1, Fork(t, c));
  }

  lemma OrphanedTombstone(a: Tgid, t: Tgid, c: Tgid, start: nat, now: Time) returns (r: Table)
    requires a != t && t != c && a != c
    ensures r == Run(EMPTY_TABLE, [Fork(a, t), Fork(t, c), Exit(ProcKey(t, start), true, now)])
    ensures IsForest(r)
    ensures r.nodes.Keys == {Placeholder(t), Placeholder(c)}
    ensures r.nodes[Placeholder(c)].parent == Some(Placeholder(t)) && Lookup(r.byTgid, c) == Some(Placeholder(c))
  {
    var t2 := ForkTwice(a, t, c);
    ExitKeepsForest(t2, ProcKey(t, start), true, now);
    r := ExitStep(t2, ProcKey(t, start), true, now);
    RunThree(EMPTY_TABLE, Fork(a, t), Fork(t, c), Exit(ProcKey(t, start), true, now));
  }

  /** Reusing a tgid while its tombstone still has a child makes a cycle: a forks t, t forks c, t exits,
      c forks a new t. From then on the walk up from `c` never ends. */
  lemma TgidReuseMakesCycle(a: Tgid, t: Tgid, c: Tgid, start: nat, now: Time)
    requires a != t && t != c && a != c
    ensures var es := [Fork(a, t), Fork(t, c), Exit(ProcKey(t, start), true, now)];
            var before, after := Run(EMPTY_TABLE, es), Run(EMPTY_TABLE, es + [Fork(c, t)]);
            && IsForest(before) && !Safe(before, Fork(c, t))
            && Resolve(after, Placeholder(c)).Some?
            && !Ends(after.nodes, Resolve(after, Placeholder(c)).value.parent)
  {
    var es := [Fork(a, t), Fork(t, c), Exit(ProcKey(t, start), true, now)];
    var before := OrphanedTombstone(a, t, c, start, now);
    RunOne(EMPTY_TABLE, es, Fork(c, t));
    assert Placeholder(c) in before.nodes[Placeholder(t)].children;
    var after := Step(before, Fork(c, t));
    forall ks ensures !IsPath(after.nodes, Some(Placeholder(t)), ks) {
      CycleNeverEnds(after.nodes, Placeholder(t), Placeholder(c), ks);
    }
  }

  // ---------------------------------------------------------------- exactly when the walks still end

  ghost predicate AllWalksEnd(nodes: Nodes) {
    forall cur :: Ends(nodes, cur)
  }

  ghost predicate ParentsPresent(nodes: Nodes) {
    forall k {:trigger nodes[k].parent} | k in nodes && nodes[k].parent.Some? :: nodes[k].parent.value in nodes
  }

  lemma WalksEndIffAcyclic(nodes: Nodes)
    requires ParentsPresent(nodes)
    ensures AllWalksEnd(nodes) <==> Acyclic(nodes)
  {
    AcyclicIffWalksEnd(nodes);
    if Acyclic(nodes) { ForestWalksEnd(nodes); }
  }

  /** Everything at or below `child` is lifted by `height`. */
  ghost function Lifted(nodes: Nodes, rank: ProcKey -> nat, child: ProcKey, height: nat): ProcKey -> nat {
    k => if k == child || (Ends(nodes, Some(k)) && child in PathOf(nodes, Some(k))) then rank(k) + height else rank(k)
  }

  /** A node other than `child` is below `child` exactly when its parent is. */
  lemma BelowLikeParent(nodes: Nodes, child: ProcKey, k: ProcKey)
    requires AllWalksEnd(nodes) && k in nodes && k != child && nodes[k].parent.Some?
    ensures child in PathOf(nodes, Some(k)) <==> child in PathOf(nodes, nodes[k].parent)
  {
    var ks := PathOf(nodes, Some(k));
    PathUnique(nodes, nodes[k].parent, ks[1..], PathOf(nodes, nodes[k].parent));
    assert child in ks <==> child in ks[1..];
  }

  /** Hanging `child` under a node that is not below it makes no cycle. */
  lemma RehangingKeepsAcyclic(nodes: Nodes, after: Nodes, child: ProcKey, parent: ProcKey)
    requires Acyclic(nodes) && AllWalksEnd(nodes) && ParentsPresent(nodes) && parent != child && child !in PathOf(nodes, Some(parent))
    requires after.Keys == nodes.Keys + {child} && after[child].parent == Some(parent)
    requires forall k | k in nodes && k != child :: after[k].parent == nodes[k].parent
    ensures Acyclic(after)
  {
    var rank: ProcKey -> nat :| RankedBy(nodes, rank);
    var lifted := Lifted(nodes, rank, child, rank(parent) + 1);
    forall k | k in after && after[k].parent.Some?
      ensures lifted(after[k].parent.value) < lifted(k)
    {
      if k != child {
        BelowLikeParent(nodes, child, k);
        if nodes[k].parent == Some(child) { assert PathOf(nodes, Some(child))[0] == child; }
      }
    }
    assert RankedBy(after, lifted);
  }

  /** Along a path the ranks fall as far as `child`, whatever the parent of `child` has become. */
  lemma {:induction false} RanksFallTo(nodes: Nodes, after: Nodes, rank: ProcKey -> nat, cur: Option<ProcKey>,
                                       ks: seq<ProcKey>, child: ProcKey)
    requires IsPath(nodes, cur, ks) && child in ks && RankedBy(after, rank)
    requires forall k | k in nodes && k != child :: k in after && after[k].parent == nodes[k].parent
    ensures cur.Some? && rank(child) <= rank(cur.value)
    decreases |ks|
  {
    if ks[0] != child {
      assert child in ks[1..];
      RanksFallTo(nodes, after, rank, nodes[ks[0]].parent, ks[1..], child);
      assert after[ks[0]].parent == nodes[ks[0]].parent;
    }
  }

  /** A fork takes place under a node that is itself below the placeholder it overwrites. */
  ghost predicate ClosesLoop(t: Table, p: Tgid, c: Tgid) {
    p in t.byTgid && Ends(t.nodes, Some(t.byTgid[p])) && Placeholder(c) in PathOf(t.nodes, Some(t.byTgid[p]))
  }

  lemma ForkedParents(t: Table, p: Tgid, c: Tgid)
    requires Mirrored(t.nodes) && Indexed(t)
    ensures var nodes := ForkStep(t, p, c).nodes;
            && nodes.Keys == t.nodes.Keys + {Placeholder(c)} && nodes[Placeholder(c)].parent == Lookup(t.byTgid, p)
            && (forall k | k in t.nodes && k != Placeholder(c) :: nodes[k].parent == t.nodes[k].parent)
            && ParentsPresent(nodes)
  {
  }

  /** After a fork every walk ends exactly when the fork closes no loop: much less is asked than for the forest. */
  lemma ForkKeepsWalksIff(t: Table, p: Tgid, c: Tgid)
    requires IsForest(t)
    ensures AllWalksEnd(t.nodes) && (AllWalksEnd(ForkStep(t, p, c).nodes) <==> !ClosesLoop(t, p, c))
  {
    var nodes, after, child := t.nodes, ForkStep(t, p, c).nodes, Placeholder(c);
    ForestWalksEnd(nodes);
    ForkedParents(t, p, c);
    WalksEndIffAcyclic(after);
    hide ForkStep;
    if p !in t.byTgid {
      var rank: ProcKey -> nat :| RankedBy(nodes, rank);
      assert RankedBy(after, rank);
    } else if !ClosesLoop(t, p, c) {
      assert PathOf(nodes, Some(t.byTgid[p]))[0] == t.byTgid[p];
      RehangingKeepsAcyclic(nodes, after, child, t.byTgid[p]);
    } else if Acyclic(after) {
      var rank: ProcKey -> nat :| RankedBy(after, rank);
      RanksFallTo(nodes, after, rank, Some(t.byTgid[p]), PathOf(nodes, Some(t.byTgid[p])), child);
    }
  }

  lemma EnsureKeepsAcyclic(t: Table, key: ProcKey)
    requires IsForest(t)
    ensures Acyclic(EnsureStep(t, key).nodes)
  {
    if Promotes(t, key) {
      PromotionRenamesEverywhere(t, key);
      RenamingKeepsAcyclic(t.nodes, Placeholder(key.tgid), key);
    } else if key !in t.nodes {
      FreshNodeKeepsForest(t, key);
    }
  }

  lemma RelabelKeepsWalks(nodes: Nodes, key: ProcKey, n: ProcNode)
    requires Acyclic(nodes) && key in nodes && n.parent == nodes[key].parent
    ensures AllWalksEnd(nodes[key := n])
  {
    var rank: ProcKey -> nat :| RankedBy(nodes, rank);
    assert RankedBy(nodes[key := n], rank);
    ForestWalksEnd(nodes[key := n]);
  }

  /** An event after which some walk no longer ends is a fork that closes a loop, and each such fork is one.
      Other unsafe events break the forest, but not the walks. */
  lemma StepKeepsWalksIff(t: Table, e: Event)
    requires IsForest(t)
    ensures AllWalksEnd(Step(t, e).nodes) <==> !(e.Fork? && ClosesLoop(t, e.parentTgid, e.childTgid))
  {
    match e
    case Fork(p, c) => ForkKeepsWalksIff(t, p, c);
    case Exec(key, comm, uid, argv) =>
      var nodes := EnsureStep(t, key).nodes;
      EnsureKeepsAcyclic(t, key);
      RelabelKeepsWalks(nodes, key, nodes[key].(comm := comm, uid := uid, argv := argv));
    case ProcExec(key, exe) =>
      var nodes := EnsureStep(t, key).nodes;
      EnsureKeepsAcyclic(t, key);
      RelabelKeepsWalks(nodes, key, nodes[key].(exe := exe));
    case Exit(key, groupDead, now) =>
      ExitKeepsForest(t, key, groupDead, now);
      ForestWalksEnd(Step(t, e).nodes);
    case Reap(now, grace) =>
      ReapKeepsForest(t, now, grace);
      ForestWalksEnd(Step(t, e).nodes);
  }
}
