/** Once a process is in the table its chain of ancestors never changes; only keys on it are promoted. */
module Stability {
  import opened Wrappers
  import opened Forest
  import opened Ancestry
  import opened Reaping

  /** The key under which the node `k` is found after the event. */
  function KeyAfter(t: Table, e: Event, k: ProcKey): ProcKey {
    match e
    case Exec(key, _, _, _) => if Promotes(t, key) then Renamed(k, Placeholder(key.tgid), key) else k
    case ProcExec(key, _) => if Promotes(t, key) then Renamed(k, Placeholder(key.tgid), key) else k
    case _ => k
  }

  function KeysAfter(t: Table, e: Event, ks: seq<ProcKey>): (r: seq<ProcKey>)
    ensures |r| == |ks| && forall i | 0 <= i < |r| :: r[i] == KeyAfter(t, e, ks[i])
  {
    seq(|ks|, i requires 0 <= i < |ks| => KeyAfter(t, e, ks[i]))
  }

  /** The node is neither reaped nor overwritten by the fork of a new process. */
  predicate Keeps(t: Table, e: Event, k: ProcKey) {
    KeyAfter(t, e, k) in Step(t, e).nodes && (e.Fork? ==> k != Placeholder(e.childTgid))
  }

  lemma {:induction false} SameParentsSamePath(a: Nodes, b: Nodes, cur: Option<ProcKey>, ks: seq<ProcKey>)
    requires IsPath(a, cur, ks) && forall k | k in a :: k in b && b[k].parent == a[k].parent
    requires cur.Some? ==> cur.value in a
    requires forall k | k in a && a[k].parent.Some? :: a[k].parent.value in a
    ensures IsPath(b, cur, ks)
    decreases |ks|
  {
    if ks != [] { SameParentsSamePath(a, b, a[cur.value].parent, ks[1..]); }
  }

  /** A safe fork changes no existing chain, and the child's chain is its parent followed by the parent's. */
  lemma ForkKeepsPath(t: Table, p: Tgid, c: Tgid, k: ProcKey)
    requires IsForest(t) && ForkSafe(t, p, c) && k in t.nodes && k != Placeholder(c)
    ensures var nodes := ForkStep(t, p, c).nodes;
            && Ends(t.nodes, t.nodes[k].parent) && k in nodes && Ends(nodes, nodes[k].parent)
            && nodes[k].parent == t.nodes[k].parent
            && PathOf(nodes, nodes[k].parent) == PathOf(t.nodes, t.nodes[k].parent)
  {
    ForestWalksEnd(t.nodes);
    var others, nodes := t.nodes - {Placeholder(c)}, ForkStep(t, p, c).nodes;
    var up := t.nodes[k].parent;
    var ks := PathOf(t.nodes, up);
    PathAvoidsLeaf(t, Placeholder(c), up, ks);
    SameParentsSamePath(others, nodes, up, ks);
    PathUnique(nodes, up, ks, PathOf(nodes, up));
  }

  /** A walk in a forest that does not start at a leaf does not pass it. */
  lemma {:induction false} PathAvoidsLeaf(t: Table, leaf: ProcKey, cur: Option<ProcKey>, ks: seq<ProcKey>)
    requires IsForest(t) && IsPath(t.nodes, cur, ks) && cur != Some(leaf) && (cur.Some? ==> cur.value in t.nodes)
    requires leaf in t.nodes ==> t.nodes[leaf].children == {}
    ensures IsPath(t.nodes - {leaf}, cur, ks)
    ensures forall k | k in t.nodes - {leaf} && t.nodes[k].parent.Some? :: t.nodes[k].parent.value in t.nodes - {leaf}
    decreases |ks|
  {
    forall k | k in t.nodes && t.nodes[k].parent.Some?
      ensures t.nodes[k].parent.value in t.nodes && t.nodes[k].parent.value != leaf
    {
      assert k in t.nodes[t.nodes[k].parent.value].children;
    }
    if ks != [] { PathAvoidsLeaf(t, leaf, t.nodes[cur.value].parent, ks[1..]); }
  }

  lemma ForkExtendsPath(t: Table, p: Tgid, c: Tgid)
    requires IsForest(t) && ForkSafe(t, p, c) && p in t.byTgid
    ensures var parent, child, nodes := t.byTgid[p], Placeholder(c), ForkStep(t, p, c).nodes;
            && parent in t.nodes && parent != child && nodes[child].parent == Some(parent)
            && Ends(t.nodes, t.nodes[parent].parent) && Ends(nodes, nodes[child].parent)
            && PathOf(nodes, nodes[child].parent) == [parent] + PathOf(t.nodes, t.nodes[parent].parent)
            && child !in PathOf(t.nodes, t.nodes[parent].parent)
  {
    var parent, child, nodes := t.byTgid[p], Placeholder(c), ForkStep(t, p, c).nodes;
    ForkKeepsPath(t, p, c, parent);
    var up := t.nodes[parent].parent;
    var ks := PathOf(t.nodes, up);
    var all := [parent] + ks;
    assert all[1..] == ks;
    assert IsPath(nodes, Some(parent), all);
    PathUnique(nodes, Some(parent), all, PathOf(nodes, Some(parent)));
    PathHasNoChild(t, child, up, ks);
  }

  lemma SameRecords(a: Nodes, b: Nodes, ks: seq<ProcKey>)
    requires forall k | k in ks :: k in a && k in b && RecordOf(a[k]) == RecordOf(b[k])
    ensures RecordsOf(NodesAt(a, ks)) == RecordsOf(NodesAt(b, ks))
  {
  }

  /** A forked process starts with the records of its parent's chain behind its parent's own record, and with
      its parent's executable and name as its own. */
  lemma ForkExtendsAncestry(t: Table, p: Tgid, c: Tgid)
    requires IsForest(t) && ForkSafe(t, p, c) && p in t.byTgid
    ensures var parent, child, nodes := t.byTgid[p], Placeholder(c), ForkStep(t, p, c).nodes;
            && parent in t.nodes && Ends(t.nodes, t.nodes[parent].parent) && Ends(nodes, nodes[child].parent)
            && AncestryRecords(nodes, child) == [RecordOf(t.nodes[parent])] + AncestryRecords(t.nodes, parent)
            && RecordOf(nodes[child]) == Record(t.nodes[parent].exe, t.nodes[parent].comm, [], 0)
            && ForkStep(t, p, c).byTgid == t.byTgid[c := child]
  {
    var parent, child, nodes := t.byTgid[p], Placeholder(c), ForkStep(t, p, c).nodes;
    ForkExtendsPath(t, p, c);
    ForkKeepsRecords(t, p, c);
    var ks := PathOf(t.nodes, t.nodes[parent].parent);
    PathLinks(t.nodes, t.nodes[parent].parent, ks);
    SameRecords(t.nodes, nodes, ks);
    ConsRecords(nodes, parent, ks);
  }

  lemma ConsRecords(nodes: Nodes, k: ProcKey, ks: seq<ProcKey>)
    requires k in nodes && forall x | x in ks :: x in nodes
    ensures forall x | x in [k] + ks :: x in nodes
    ensures RecordsOf(NodesAt(nodes, [k] + ks)) == [RecordOf(nodes[k])] + RecordsOf(NodesAt(nodes, ks))
  {
    var all := [k] + ks;
    assert NodesAt(nodes, all) == [nodes[k]] + NodesAt(nodes, ks) by { assert all[1..] == ks; }
    hide NodesAt, RecordOf;
  }

  lemma ForkKeepsRecords(t: Table, p: Tgid, c: Tgid)
    ensures var nodes := ForkStep(t, p, c).nodes;
            forall k | k in t.nodes && k != Placeholder(c) :: k in nodes && RecordOf(nodes[k]) == RecordOf(t.nodes[k])
  {
  }

  lemma PathHasNoChild(t: Table, leaf: ProcKey, cur: Option<ProcKey>, ks: seq<ProcKey>)
    requires IsForest(t) && IsPath(t.nodes, cur, ks) && cur != Some(leaf) && (cur.Some? ==> cur.value in t.nodes)
    requires leaf in t.nodes ==> t.nodes[leaf].children == {}
    ensures leaf !in ks
  {
    PathAvoidsLeaf(t, leaf, cur, ks);
    PathLinks(t.nodes - {leaf}, cur, ks);
  }

  /** Rewriting what a node records leaves every path alone. */
  lemma RelabelKeepsPath(a: Nodes, key: ProcKey, n: ProcNode, cur: Option<ProcKey>)
    requires key in a && n.parent == a[key].parent && Ends(a, cur) && (cur.Some? ==> cur.value in a)
    requires forall k | k in a && a[k].parent.Some? :: a[k].parent.value in a
    ensures Ends(a[key := n], cur) && PathOf(a[key := n], cur) == PathOf(a, cur)
  {
    SameParentsSamePath(a, a[key := n], cur, PathOf(a, cur));
    PathUnique(a[key := n], cur, PathOf(a, cur), PathOf(a[key := n], cur));
  }

  lemma EnsureKeepsPath(t: Table, key: ProcKey, k: ProcKey)
    requires IsForest(t) && k in t.nodes
    ensures var k' := if Promotes(t, key) then Renamed(k, Placeholder(key.tgid), key) else k;
            var t' := EnsureStep(t, key);
            && k' in t'.nodes && Ends(t.nodes, t.nodes[k].parent) && Ends(t'.nodes, t'.nodes[k'].parent)
            && PathOf(t'.nodes, t'.nodes[k'].parent)
            == if Promotes(t, key) then RenamedSeq(PathOf(t.nodes, t.nodes[k].parent), Placeholder(key.tgid), key)
               else PathOf(t.nodes, t.nodes[k].parent)
  {
    ForestWalksEnd(t.nodes);
    if Promotes(t, key) {
      PromotionIsInvisible(t, key, k);
    } else if key !in t.nodes {
      var nodes, up := FreshStep(t, key).nodes, t.nodes[k].parent;
      assert nodes == t.nodes[key := NewNode(key)];
      SameParentsSamePath(t.nodes, nodes, up, PathOf(t.nodes, up));
      PathUnique(nodes, up, PathOf(t.nodes, up), PathOf(nodes, up));
    }
  }

  lemma ExecKeepsPath(t: Table, key: ProcKey, k: ProcKey, n: ProcNode)
    requires IsForest(t) && EnsureSafe(t, key) && k in t.nodes
    requires SameLinks(EnsureStep(t, key).nodes[key], n)
    ensures var k' := if Promotes(t, key) then Renamed(k, Placeholder(key.tgid), key) else k;
            var nodes := EnsureStep(t, key).nodes[key := n];
            && k' in nodes && Ends(t.nodes, t.nodes[k].parent) && Ends(nodes, nodes[k'].parent)
            && PathOf(nodes, nodes[k'].parent)
            == if Promotes(t, key) then RenamedSeq(PathOf(t.nodes, t.nodes[k].parent), Placeholder(key.tgid), key)
               else PathOf(t.nodes, t.nodes[k].parent)
  {
    EnsureKeepsPath(t, key, k);
    EnsureKeepsForestIff(t, key);
    var t' := EnsureStep(t, key);
    var k' := if Promotes(t, key) then Renamed(k, Placeholder(key.tgid), key) else k;
    RelabelKeepsPath(t'.nodes, key, n, t'.nodes[k'].parent);
  }

  /** A safe event changes the chain of no node that stays, apart from promoting keys on it. */
  lemma StepKeepsPath(t: Table, e: Event, k: ProcKey)
    requires IsForest(t) && Safe(t, e) && k in t.nodes && Keeps(t, e, k)
    ensures var nodes, k' := Step(t, e).nodes, KeyAfter(t, e, k);
            && Ends(t.nodes, t.nodes[k].parent) && Ends(nodes, nodes[k'].parent)
            && PathOf(nodes, nodes[k'].parent) == KeysAfter(t, e, PathOf(t.nodes, t.nodes[k].parent))
  {
    ForestWalksEnd(t.nodes);
    var ks := PathOf(t.nodes, t.nodes[k].parent);
    match e
    case Fork(p, c) =>
      ForkKeepsPath(t, p, c, k);
      assert KeysAfter(t, e, ks) == ks;
    case Exec(key, comm, uid, argv) =>
      ExecKeepsPath(t, key, k, EnsureStep(t, key).nodes[key].(comm := comm, uid := uid, argv := argv));
      assert KeysAfter(t, e, ks) == if Promotes(t, key) then RenamedSeq(ks, Placeholder(key.tgid), key) else ks;
    case ProcExec(key, exe) =>
      ExecKeepsPath(t, key, k, EnsureStep(t, key).nodes[key].(exe := exe));
      assert KeysAfter(t, e, ks) == if Promotes(t, key) then RenamedSeq(ks, Placeholder(key.tgid), key) else ks;
    case Exit(key, groupDead, now) =>
      assert KeysAfter(t, e, ks) == ks;
      var target := ExitTarget(t, key);
      if groupDead && target in t.nodes {
        RelabelKeepsPath(t.nodes, target, t.nodes[target].(exitedAt := Some(now)), t.nodes[k].parent);
      }
    case Reap(now, grace) =>
      assert KeysAfter(t, e, ks) == ks;
      ReapKeepsAncestry(t, now, grace, k);
  }

  // ---------------------------------------------------------------- what nodes record

  /** The record of the node now at `k'`, which was `r` before the event. */
  function RecordAfter(e: Event, k': ProcKey, r: Record): Record {
    match e
    case Exec(key, comm, uid, argv) => if k' == key then Record(r.exe, comm, argv, uid) else r
    case ProcExec(key, exe) => if k' == key then r.(exe := exe) else r
    case _ => r
  }

  /** The exit mark of the node at `k`, which was `x` before the event. */
  function ExitAfter(t: Table, e: Event, k: ProcKey, x: Option<Time>): Option<Time> {
    if e.Exit? && e.groupDead && k == ExitTarget(t, e.key) then Some(e.now) else x
  }

  lemma EnsureKeepsRecords(t: Table, key: ProcKey, k: ProcKey)
    requires IsForest(t) && k in t.nodes
    ensures var k' := if Promotes(t, key) then Renamed(k, Placeholder(key.tgid), key) else k;
            var nodes := EnsureStep(t, key).nodes;
            k' in nodes && RecordOf(nodes[k']) == RecordOf(t.nodes[k]) && nodes[k'].exitedAt == t.nodes[k].exitedAt
  {
    if Promotes(t, key) { PromotionRenamesEverywhere(t, key); }
  }

  /** An event changes what the node of its own process records, and no other node's: an exec replaces name,
      user and arguments, a successful one the executable, the group's death marks the exit. */
  lemma StepChangesOnlyItsProcess(t: Table, e: Event, k: ProcKey)
    requires IsForest(t) && k in t.nodes && Keeps(t, e, k)
    ensures var n := Step(t, e).nodes[KeyAfter(t, e, k)];
            && RecordOf(n) == RecordAfter(e, KeyAfter(t, e, k), RecordOf(t.nodes[k]))
            && n.exitedAt == ExitAfter(t, e, k, t.nodes[k].exitedAt)
  {
    match e
    case Fork(_, _) =>
    case Exec(key, _, _, _) => EnsureKeepsRecords(t, key, k);
    case ProcExec(key, _) => EnsureKeepsRecords(t, key, k);
    case Exit(_, _, _) =>
    case Reap(_, _) =>
  }

  /** A process that nobody announced starts with a blank record and without a parent, and is indexed. */
  lemma UnannouncedProcessIsBlank(t: Table, key: ProcKey)
    requires IsForest(t) && key !in t.nodes && !Promotes(t, key)
    ensures var t' := EnsureStep(t, key);
            && RecordOf(t'.nodes[key]) == Record("", "", [], 0) && t'.nodes[key].parent == None
            && t'.byTgid == t.byTgid[key.tgid := key]
            && forall k | k in t.nodes :: k in t'.nodes && t'.nodes[k] == t.nodes[k]
  {
  }

  // ---------------------------------------------------------------- what one event records, in any table

  /** Where the process's node is before its own event: under its key, or under a placeholder to be promoted. */
  function KnownAs(t: Table, key: ProcKey): Option<ProcKey> {
    if key in t.nodes then Some(key)
    else if key.startTime != 0 && ProcKey(key.tgid, 0) in t.nodes then Some(ProcKey(key.tgid, 0))
    else None
  }

  /** All but the nodes of `k` keep what they record, under their keys. */
  ghost predicate OthersKeep(before: Nodes, after: Nodes, k: Option<ProcKey>, key: ProcKey) {
    forall x | x in before && k != Some(x) && x != key ::
      && x in after && after[x].exe == before[x].exe && after[x].comm == before[x].comm && after[x].argv == before[x].argv
      && after[x].uid == before[x].uid && after[x].exitedAt == before[x].exitedAt && after[x].key == before[x].key
  }

  /** Whether the process is known, promoted or new: after an exec its lookup gives the name, user and arguments of
      that exec, and the executable that was known before, or none. */
  lemma ExecIsRecorded(t: Table, key: ProcKey, comm: string, uid: nat, argv: seq<string>)
    ensures var t', k := ExecStep(t, key, comm, uid, argv), KnownAs(t, key);
            && Resolve(t', key).Some? && key in t'.nodes && Resolve(t', key).value == t'.nodes[key]
            && t'.nodes[key].comm == comm && t'.nodes[key].uid == uid && t'.nodes[key].argv == argv
            && t'.nodes[key].exe == (if k.Some? then t.nodes[k.value].exe else "")
            && t'.nodes[key].exitedAt == (if k.Some? then t.nodes[k.value].exitedAt else None)
            && (k != Some(key) ==> t'.nodes[key].key == key && t'.byTgid == t.byTgid[key.tgid := key])
            && (k == Some(key) ==> t'.nodes[key].key == t.nodes[key].key && t'.byTgid == t.byTgid)
            && OthersKeep(t.nodes, t'.nodes, k, key)
  {
  }

  /** The same for an exec that succeeded: it records the executable, and keeps the rest or leaves it blank. */
  lemma ProcExecIsRecorded(t: Table, key: ProcKey, exe: string)
    ensures var t', k := ProcExecStep(t, key, exe), KnownAs(t, key);
            && Resolve(t', key).Some? && key in t'.nodes && Resolve(t', key).value == t'.nodes[key]
            && t'.nodes[key].exe == exe
            && t'.nodes[key].comm == (if k.Some? then t.nodes[k.value].comm else "")
            && t'.nodes[key].uid == (if k.Some? then t.nodes[k.value].uid else 0)
            && t'.nodes[key].argv == (if k.Some? then t.nodes[k.value].argv else [])
            && t'.nodes[key].exitedAt == (if k.Some? then t.nodes[k.value].exitedAt else None)
            && (k != Some(key) ==> t'.nodes[key].key == key && t'.byTgid == t.byTgid[key.tgid := key])
            && (k == Some(key) ==> t'.nodes[key].key == t.nodes[key].key && t'.byTgid == t.byTgid)
            && OthersKeep(t.nodes, t'.nodes, k, key)
  {
  }

  /** In any table a fork makes a childless, unmarked node under the placeholder. It hangs under the indexed parent
      and has its name and executable, if there is one. All other nodes stay, but for the parent's new child. */
  lemma ForkIsRecorded(t: Table, p: Tgid, c: Tgid)
    ensures var t', child, parent := ForkStep(t, p, c), ProcKey(c, 0), Lookup(t.byTgid, p);
            var known := parent.Some? && parent.value in t.nodes;
            && child in t'.nodes && t'.byTgid == t.byTgid[c := child]
            && t'.nodes[child] == ProcNode(child, parent, if known then t.nodes[parent.value].exe else "", [],
                                           if known then t.nodes[parent.value].comm else "", 0, None, {})
            && t'.nodes.Keys == t.nodes.Keys + {child}
            && forall k | k in t.nodes && k != child ::
                 t'.nodes[k] == if parent == Some(k) then t.nodes[k].(children := t.nodes[k].children + {child}) else t.nodes[k]
  {
  }

  /** The group's death marks the process's node, or else its placeholder, and nothing else; afterwards its tgid is
      not indexed, and every other one as before. Any other exit does nothing. */
  lemma ExitIsRecorded(t: Table, key: ProcKey, groupDead: bool, now: Time)
    ensures !groupDead ==> ExitStep(t, key, groupDead, now) == t
    ensures groupDead ==>
              var t' := ExitStep(t, key, groupDead, now);
              var target := if key in t.nodes then key else ProcKey(key.tgid, 0);
              && key.tgid !in t'.byTgid && (forall g | g != key.tgid :: Lookup(t'.byTgid, g) == Lookup(t.byTgid, g))
              && t'.nodes.Keys == t.nodes.Keys
              && forall k | k in t.nodes :: t'.nodes[k] == if k == target then t.nodes[k].(exitedAt := Some(now)) else t.nodes[k]
  {
  }

  /** A lookup under a key that has no node finds the node that the tgid's last fork or first own event made, and
      after the group's death nothing. */
  lemma LookupFindsNewest(t: Table, e: Event, key: ProcKey)
    requires key !in Step(t, e).nodes
    ensures e.Fork? && e.childTgid == key.tgid ==> Resolve(Step(t, e), key) == Some(Step(t, e).nodes[ProcKey(e.childTgid, 0)])
    ensures (e.Exec? || e.ProcExec?) && e.key.tgid == key.tgid && e.key !in t.nodes ==>
              Resolve(Step(t, e), key) == Some(Step(t, e).nodes[e.key])
    ensures e.Exit? && e.groupDead && e.key.tgid == key.tgid ==> Resolve(Step(t, e), key) == None
  {
    match e
    case Fork(p, c) => ForkIsRecorded(t, p, c);
    case Exec(k, comm, uid, argv) => ExecIsRecorded(t, k, comm, uid, argv);
    case ProcExec(k, exe) => ProcExecIsRecorded(t, k, exe);
    case Exit(k, groupDead, now) => ExitIsRecorded(t, k, groupDead, now);
    case Reap(_, _) =>
  }

  // ---------------------------------------------------------------- whole runs

  function KeyAfterRun(t: Table, es: seq<Event>, k: ProcKey): ProcKey {
    if es == [] then k
    else KeyAfter(Run(t, es[..|es| - 1]), es[|es| - 1], KeyAfterRun(t, es[..|es| - 1], k))
  }

  function KeysAfterRun(t: Table, es: seq<Event>, ks: seq<ProcKey>): (r: seq<ProcKey>)
    ensures |r| == |ks| && forall i | 0 <= i < |r| :: r[i] == KeyAfterRun(t, es, ks[i])
  {
    seq(|ks|, i requires 0 <= i < |ks| => KeyAfterRun(t, es, ks[i]))
  }

  predicate KeepsThroughout(t: Table, es: seq<Event>, k: ProcKey) {
    if es == [] then k in t.nodes
    else
      var front := es[..|es| - 1];
      KeepsThroughout(t, front, k) && Keeps(Run(t, front), es[|es| - 1], KeyAfterRun(t, front, k))
  }

  /** Over a whole safe run the chain of every node that stays is its first chain, key by key. */
  lemma {:induction false} RunKeepsPath(t: Table, es: seq<Event>, k: ProcKey)
    requires IsForest(t) && SafeRun(t, es) && KeepsThroughout(t, es, k)
    ensures IsForest(Run(t, es)) && k in t.nodes && KeyAfterRun(t, es, k) in Run(t, es).nodes
    ensures var nodes, k' := Run(t, es).nodes, KeyAfterRun(t, es, k);
            && Ends(t.nodes, t.nodes[k].parent) && Ends(nodes, nodes[k'].parent)
            && PathOf(nodes, nodes[k'].parent) == KeysAfterRun(t, es, PathOf(t.nodes, t.nodes[k].parent))
  {
    if es == [] {
      ForestWalksEnd(t.nodes);
      var ks := PathOf(t.nodes, t.nodes[k].parent);
      assert KeysAfterRun(t, es, ks) == ks;
    } else {
      var front, last := es[..|es| - 1], es[|es| - 1];
      RunKeepsPath(t, front, k);
      var mid := Run(t, front);
      StepKeepsForestIff(mid, last);
      StepKeepsPath(mid, last, KeyAfterRun(t, front, k));
      var ks := PathOf(t.nodes, t.nodes[k].parent);
      assert KeysAfter(mid, last, KeysAfterRun(t, front, ks)) == KeysAfterRun(t, es, ks);
    }
  }
}
