/** The process table as a value: what one event does to it, and the invariant that the events keep. */
module Forest {
  import opened Wrappers

  type Tgid = nat
  type Time = nat

  datatype ProcKey = ProcKey(tgid: Tgid, startTime: nat)

  datatype ProcNode = ProcNode(
    key: ProcKey,
    parent: Option<ProcKey>,
    exe: string,
    argv: seq<string>,
    comm: string,
    uid: nat,
    exitedAt: Option<Time>,
    children: set<ProcKey>)

  type Nodes = map<ProcKey, ProcNode>

  datatype Table = Table(nodes: Nodes, pendingParent: map<Tgid, Tgid>, byTgid: map<Tgid, ProcKey>)

  const EMPTY_TABLE := Table(map[], map[], map[])

  function NewNode(key: ProcKey): ProcNode {
    ProcNode(key, None, "", [], "", 0, None, {})
  }

  /** The key a process has between its fork and its first own event. */
  function Placeholder(tgid: Tgid): ProcKey {
    ProcKey(tgid, 0)
  }

  // ---------------------------------------------------------------- what one event does

  function AddChild(nodes: Nodes, parent: Option<ProcKey>, child: ProcKey): Nodes {
    if parent.Some? && parent.value in nodes
    then nodes[parent.value := nodes[parent.value].(children := nodes[parent.value].children + {child})]
    else nodes
  }

  function ForkStep(t: Table, parentTgid: Tgid, childTgid: Tgid): Table {
    var child := Placeholder(childTgid);
    var parent := Lookup(t.byTgid, parentTgid);
    var nodes := AddChild(t.nodes, parent, child);
    var node := NewNode(child).(parent := parent);
    var node := if parent.Some? && parent.value in nodes
                then node.(comm := nodes[parent.value].comm, exe := nodes[parent.value].exe)
                else node;
    t.(nodes := nodes[child := node], byTgid := t.byTgid[childTgid := child])
  }

  /** Whether `ensure` renames the placeholder of this key's process instead of making a node. */
  predicate Promotes(t: Table, key: ProcKey) {
    key !in t.nodes && key.startTime != 0 && Placeholder(key.tgid) in t.nodes
  }

  /** The parent's `children` after the placeholder `from` was taken out and `key` put in. */
  function SwapChild(nodes: Nodes, parent: Option<ProcKey>, from: ProcKey, key: ProcKey): Nodes {
    if parent.Some? && parent.value in nodes
    then nodes[parent.value := nodes[parent.value].(children := nodes[parent.value].children - {from} + {key})]
    else nodes
  }

  /** Every listed child that is in the table gets `key` as its parent. */
  function Relink(nodes: Nodes, children: set<ProcKey>, key: ProcKey): Nodes {
    map k | k in nodes :: if k in children then nodes[k].(parent := Some(key)) else nodes[k]
  }

  function PromoteStep(t: Table, key: ProcKey): Table
    requires Promotes(t, key)
  {
    var from := Placeholder(key.tgid);
    var node := t.nodes[from];
    var nodes := SwapChild(t.nodes - {from}, node.parent, from, key);
    var nodes := Relink(nodes, node.children, key);
    t.(nodes := nodes[key := node.(key := key)], byTgid := t.byTgid[key.tgid := key])
  }

  /** A node nobody announced by a fork. Its parent can only come from `pendingParent`. */
  function FreshStep(t: Table, key: ProcKey): Table {
    var parent := if key.tgid in t.pendingParent then Lookup(t.byTgid, t.pendingParent[key.tgid]) else None;
    Table(AddChild(t.nodes, parent, key)[key := NewNode(key).(parent := parent)],
          t.pendingParent - {key.tgid},
          t.byTgid[key.tgid := key])
  }

  function EnsureStep(t: Table, key: ProcKey): (r: Table)
    ensures key in r.nodes
  {
    if key in t.nodes then t
    else if Promotes(t, key) then PromoteStep(t, key)
    else FreshStep(t, key)
  }

  function ExecStep(t: Table, key: ProcKey, comm: string, uid: nat, argv: seq<string>): Table {
    var t := EnsureStep(t, key);
    t.(nodes := t.nodes[key := t.nodes[key].(comm := comm, uid := uid, argv := argv)])
  }

  function ProcExecStep(t: Table, key: ProcKey, exe: string): Table {
    var t := EnsureStep(t, key);
    t.(nodes := t.nodes[key := t.nodes[key].(exe := exe)])
  }

  function ExitTarget(t: Table, key: ProcKey): ProcKey {
    if key in t.nodes then key else Placeholder(key.tgid)
  }

  function ExitStep(t: Table, key: ProcKey, groupDead: bool, now: Time): Table {
    if !groupDead then t
    else
      var target := ExitTarget(t, key);
      var nodes := if target in t.nodes then t.nodes[target := t.nodes[target].(exitedAt := Some(now))] else t.nodes;
      t.(nodes := nodes, byTgid := t.byTgid - {key.tgid})
  }

  /** `now.duration_since(t) > grace`, which is zero for a `t` in the future. */
  predicate PastGrace(n: ProcNode, now: Time, grace: nat) {
    n.exitedAt.Some? && (if now >= n.exitedAt.value then now - n.exitedAt.value else 0) > grace
  }

  function Dead(nodes: Nodes, now: Time, grace: nat): set<ProcKey> {
    set k | k in nodes && PastGrace(nodes[k], now, grace) && nodes[k].children == {} :: nodes[k].key
  }

  /** The table without the nodes in `dead`, each taken out of its parent's `children`. */
  function Without(nodes: Nodes, dead: set<ProcKey>): Nodes {
    map k | k in nodes && k !in dead ::
      nodes[k].(children := set c | c in nodes[k].children && !(c in dead && c in nodes && nodes[c].parent == Some(k)))
  }

  function ReapStep(t: Table, now: Time, grace: nat): Table {
    t.(nodes := Without(t.nodes, Dead(t.nodes, now, grace)))
  }

  /** The exact key first, then the newest node of the same tgid. */
  function Resolve(t: Table, key: ProcKey): Option<ProcNode> {
    if key in t.nodes then Some(t.nodes[key])
    else if key.tgid in t.byTgid then Lookup(t.nodes, t.byTgid[key.tgid])
    else None
  }

  datatype Event =
    | Fork(parentTgid: Tgid, childTgid: Tgid)
    | Exec(key: ProcKey, comm: string, uid: nat, argv: seq<string>)
    | ProcExec(key: ProcKey, exe: string)
    | Exit(key: ProcKey, groupDead: bool, now: Time)
    | Reap(now: Time, grace: nat)

  function Step(t: Table, e: Event): Table {
    match e
    case Fork(p, c) => ForkStep(t, p, c)
    case Exec(key, comm, uid, argv) => ExecStep(t, key, comm, uid, argv)
    case ProcExec(key, exe) => ProcExecStep(t, key, exe)
    case Exit(key, groupDead, now) => ExitStep(t, key, groupDead, now)
    case Reap(now, grace) => ReapStep(t, now, grace)
  }

  function Run(t: Table, es: seq<Event>): Table {
    if es == [] then t else Step(Run(t, es[..|es| - 1]), es[|es| - 1])
  }

  // ---------------------------------------------------------------- the invariant

  ghost predicate Keyed(t: Table) {
    && (forall k | k in t.nodes :: t.nodes[k].key == k)
    && (forall g | g in t.byTgid :: t.byTgid[g].tgid == g)
  }

  /** A node names its parent exactly when that parent lists the node, and both are present. */
  ghost predicate Mirrored(nodes: Nodes) {
    && (forall k {:trigger nodes[k].parent} | k in nodes && nodes[k].parent.Some? ::
          nodes[k].parent.value in nodes && k in nodes[nodes[k].parent.value].children)
    && (forall p, c | p in nodes && c in nodes[p].children :: c in nodes && nodes[c].parent == Some(p))
  }

  ghost predicate RankedBy(nodes: Nodes, rank: ProcKey -> nat) {
    forall k {:trigger nodes[k].parent} | k in nodes && nodes[k].parent.Some? :: rank(nodes[k].parent.value) < rank(k)
  }

  ghost predicate Acyclic(nodes: Nodes) {
    exists rank: ProcKey -> nat :: RankedBy(nodes, rank)
  }

  ghost predicate Indexed(t: Table) {
    forall g | g in t.byTgid :: t.byTgid[g] in t.nodes && t.nodes[t.byTgid[g]].exitedAt.None?
  }

  ghost predicate IsForest(t: Table) {
    && Keyed(t)
    && Mirrored(t.nodes)
    && Acyclic(t.nodes)
    && Indexed(t)
    && t.pendingParent == map[]
  }

  // ---------------------------------------------------------------- when one event keeps it

  /** Forking onto a placeholder still in the table is harmless only if it is a leaf that
      already hangs where the new node will hang, or hangs nowhere. */
  predicate ForkSafe(t: Table, parentTgid: Tgid, childTgid: Tgid) {
    var child := Placeholder(childTgid);
    var parent := Lookup(t.byTgid, parentTgid);
    child in t.nodes ==>
      && t.nodes[child].children == {}
      && (t.nodes[child].parent.None? || t.nodes[child].parent == parent)
      && parent != Some(child)
  }

  /** The placeholder about to be renamed has not exited. */
  predicate EnsureSafe(t: Table, key: ProcKey) {
    Promotes(t, key) ==> t.nodes[Placeholder(key.tgid)].exitedAt.None?
  }

  predicate Safe(t: Table, e: Event) {
    match e
    case Fork(p, c) => ForkSafe(t, p, c)
    case Exec(key, _, _, _) => EnsureSafe(t, key)
    case ProcExec(key, _) => EnsureSafe(t, key)
    case Exit(_, _, _) => true
    case Reap(_, _) => true
  }

  predicate SafeRun(t: Table, es: seq<Event>) {
    es == [] || (SafeRun(t, es[..|es| - 1]) && Safe(Run(t, es[..|es| - 1]), es[|es| - 1]))
  }

  lemma ForkKeepsAcyclic(t: Table, p: Tgid, c: Tgid)
    requires IsForest(t) && ForkSafe(t, p, c)
    ensures Acyclic(ForkStep(t, p, c).nodes)
  {
    var rank: ProcKey -> nat :| RankedBy(t.nodes, rank);
    var child, parent := Placeholder(c), Lookup(t.byTgid, p);
    var rank' := (k: ProcKey) => if k == child && parent.Some? then rank(parent.value) + 1 else rank(k);
    assert RankedBy(ForkStep(t, p, c).nodes, rank');
  }

  lemma ForkKeepsMirrored(t: Table, p: Tgid, c: Tgid)
    requires IsForest(t) && ForkSafe(t, p, c)
    ensures Mirrored(ForkStep(t, p, c).nodes)
  {
    hide Acyclic, Keyed;
  }

  lemma ForkKeepsForest(t: Table, p: Tgid, c: Tgid)
    requires IsForest(t) && ForkSafe(t, p, c)
    ensures IsForest(ForkStep(t, p, c))
  {
    ForkKeepsAcyclic(t, p, c);
    ForkKeepsMirrored(t, p, c);
    hide Mirrored, Acyclic;
  }

  lemma UnsafeForkBreaksForest(t: Table, p: Tgid, c: Tgid)
    requires IsForest(t) && !ForkSafe(t, p, c)
    ensures !IsForest(ForkStep(t, p, c))
  {
    var child, parent := Placeholder(c), Lookup(t.byTgid, p);
    var nodes := ForkStep(t, p, c).nodes;
    var prior := t.nodes[child];
    if parent == Some(child) {
      assert nodes[child].parent == Some(child) && nodes[child].children == {};
    } else if prior.children != {} {
      var k :| k in prior.children;
      assert k != child by {
        var rank: ProcKey -> nat :| RankedBy(t.nodes, rank);
      }
      assert nodes[k].parent == Some(child);
    } else {
      assert child in nodes[prior.parent.value].children;
    }
  }

  /** A fork keeps the forest exactly when it is safe. */
  lemma ForkKeepsForestIff(t: Table, p: Tgid, c: Tgid)
    requires IsForest(t)
    ensures IsForest(ForkStep(t, p, c)) <==> ForkSafe(t, p, c)
  {
    if ForkSafe(t, p, c) { ForkKeepsForest(t, p, c); } else { UnsafeForkBreaksForest(t, p, c); }
  }

  // ---------------------------------------------------------------- promotion is a renaming

  function Renamed(k: ProcKey, from: ProcKey, to: ProcKey): ProcKey {
    if k == from then to else k
  }

  function RenamedOption(k: Option<ProcKey>, from: ProcKey, to: ProcKey): Option<ProcKey> {
    if k == Some(from) then Some(to) else k
  }

  function RenamedSet(s: set<ProcKey>, from: ProcKey, to: ProcKey): set<ProcKey> {
    if from in s then s - {from} + {to} else s
  }

  function RenamedNode(n: ProcNode, from: ProcKey, to: ProcKey): ProcNode {
    n.(key := Renamed(n.key, from, to),
       parent := RenamedOption(n.parent, from, to),
       children := RenamedSet(n.children, from, to))
  }

  /** Every occurrence of `from`, as a map key, a node's key, a parent or a child, becomes `to`. */
  function RenamedNodes(nodes: Nodes, from: ProcKey, to: ProcKey): Nodes
    requires from in nodes && to !in nodes
  {
    map k | k in nodes.Keys - {from} + {to} :: RenamedNode(nodes[if k == to then from else k], from, to)
  }

  /** The three local relinks of a promotion amount to renaming the key everywhere. */
  lemma PromotionRenamesEverywhere(t: Table, key: ProcKey)
    requires IsForest(t) && Promotes(t, key)
    ensures PromoteStep(t, key)
         == t.(nodes := RenamedNodes(t.nodes, Placeholder(key.tgid), key), byTgid := t.byTgid[key.tgid := key])
  {
    var from := Placeholder(key.tgid);
    var rank: ProcKey -> nat :| RankedBy(t.nodes, rank);
    var after, renamed := PromoteStep(t, key).nodes, RenamedNodes(t.nodes, from, key);
    forall k | k in renamed
      ensures k in after && after[k] == renamed[k]
    {
      PromotedNode(t, key, if k == key then from else k);
    }
    assert after.Keys == renamed.Keys;
  }

  lemma PromotedNode(t: Table, key: ProcKey, k: ProcKey)
    requires IsForest(t) && Promotes(t, key) && k in t.nodes
    ensures var from := Placeholder(key.tgid);
            var k' := Renamed(k, from, key);
            k' in PromoteStep(t, key).nodes && PromoteStep(t, key).nodes[k'] == RenamedNode(t.nodes[k], from, key)
  {
    var from := Placeholder(key.tgid);
    var rank: ProcKey -> nat :| RankedBy(t.nodes, rank);
    assert from !in t.nodes[from].children;
    assert key !in t.nodes[k].children;
    if k != from && t.nodes[from].parent == Some(k) {
      assert from in t.nodes[k].children;
    }
  }

  ghost function RankBefore(rank: ProcKey -> nat, from: ProcKey, to: ProcKey): ProcKey -> nat {
    k => rank(Renamed(k, to, from))
  }

  lemma RenamedEntry(nodes: Nodes, from: ProcKey, to: ProcKey, k: ProcKey)
    requires from in nodes && to !in nodes && Mirrored(nodes) && k in RenamedNodes(nodes, from, to)
    ensures Renamed(k, to, from) in nodes
    ensures RenamedNodes(nodes, from, to)[k] == RenamedNode(nodes[Renamed(k, to, from)], from, to)
    ensures var p, p' := nodes[Renamed(k, to, from)].parent, RenamedNodes(nodes, from, to)[k].parent;
            (p.Some? <==> p'.Some?) && (p.Some? ==> p.value in nodes && Renamed(p'.value, to, from) == p.value)
  {
  }

  lemma RenamingKeepsAcyclic(nodes: Nodes, from: ProcKey, to: ProcKey)
    requires from in nodes && to !in nodes
    requires Mirrored(nodes) && Acyclic(nodes)
    ensures Acyclic(RenamedNodes(nodes, from, to))
  {
    var rank: ProcKey -> nat :| RankedBy(nodes, rank);
    var r := RenamedNodes(nodes, from, to);
    forall k | k in r && r[k].parent.Some?
      ensures rank(Renamed(r[k].parent.value, to, from)) < rank(Renamed(k, to, from))
    {
      RenamedEntry(nodes, from, to, k);
    }
    assert RankedBy(r, RankBefore(rank, from, to));
  }

  lemma RenamingKeepsMirrored(nodes: Nodes, from: ProcKey, to: ProcKey)
    requires from in nodes && to !in nodes
    requires Mirrored(nodes)
    ensures Mirrored(RenamedNodes(nodes, from, to))
  {
    var r := RenamedNodes(nodes, from, to);
    forall k | k in r && r[k].parent.Some?
      ensures r[k].parent.value in r && k in r[r[k].parent.value].children
    {
      RenamedParentLists(nodes, from, to, k);
    }
    forall p, c | p in r && c in r[p].children
      ensures c in r && r[c].parent == Some(p)
    {
      RenamedChildNames(nodes, from, to, p, c);
    }
    hide RenamedNodes;
  }

  lemma RenamedParentLists(nodes: Nodes, from: ProcKey, to: ProcKey, k: ProcKey)
    requires from in nodes && to !in nodes && Mirrored(nodes) && k in RenamedNodes(nodes, from, to)
    requires RenamedNodes(nodes, from, to)[k].parent.Some?
    ensures var r := RenamedNodes(nodes, from, to);
            r[k].parent.value in r && k in r[r[k].parent.value].children
  {
    RenamedEntry(nodes, from, to, k);
  }

  lemma RenamedChildNames(nodes: Nodes, from: ProcKey, to: ProcKey, p: ProcKey, c: ProcKey)
    requires from in nodes && to !in nodes && Mirrored(nodes) && p in RenamedNodes(nodes, from, to)
    requires c in RenamedNodes(nodes, from, to)[p].children
    ensures var r := RenamedNodes(nodes, from, to); c in r && r[c].parent == Some(p)
  {
    RenamedEntry(nodes, from, to, p);
    assert Renamed(c, to, from) in nodes[Renamed(p, to, from)].children;
  }

  lemma PromotionKeepsForestIff(t: Table, key: ProcKey)
    requires IsForest(t) && Promotes(t, key)
    ensures IsForest(PromoteStep(t, key)) <==> t.nodes[Placeholder(key.tgid)].exitedAt.None?
  {
    PromotionRenamesEverywhere(t, key);
    RenamingKeepsAcyclic(t.nodes, Placeholder(key.tgid), key);
    RenamingKeepsMirrored(t.nodes, Placeholder(key.tgid), key);
    var t' := PromoteStep(t, key);
    assert t'.nodes[t'.byTgid[key.tgid]].exitedAt == t.nodes[Placeholder(key.tgid)].exitedAt;
  }

  lemma FreshNodeKeepsForest(t: Table, key: ProcKey)
    requires IsForest(t) && key !in t.nodes
    ensures IsForest(FreshStep(t, key))
  {
    var rank: ProcKey -> nat :| RankedBy(t.nodes, rank);
    assert RankedBy(FreshStep(t, key).nodes, rank);
  }

  /** Making sure a key has a node keeps the forest exactly when it renames no exited placeholder. */
  lemma EnsureKeepsForestIff(t: Table, key: ProcKey)
    requires IsForest(t)
    ensures IsForest(EnsureStep(t, key)) <==> EnsureSafe(t, key)
  {
    if key !in t.nodes {
      if Promotes(t, key) { PromotionKeepsForestIff(t, key); } else { FreshNodeKeepsForest(t, key); }
    }
  }

  /** Rewriting what a node records about its process does not touch the forest. */
  predicate SameLinks(n: ProcNode, m: ProcNode) {
    n.key == m.key && n.parent == m.parent && n.children == m.children
  }

  lemma RelabelKeepsForest(t: Table, key: ProcKey, n: ProcNode)
    requires key in t.nodes && SameLinks(t.nodes[key], n) && t.nodes[key].exitedAt == n.exitedAt
    requires IsForest(t)
    ensures IsForest(t.(nodes := t.nodes[key := n]))
  {
    var rank: ProcKey -> nat :| RankedBy(t.nodes, rank);
    assert RankedBy(t.nodes[key := n], rank);
  }

  lemma RelabelKeepsForestIff(t: Table, key: ProcKey, n: ProcNode)
    requires key in t.nodes && SameLinks(t.nodes[key], n) && t.nodes[key].exitedAt == n.exitedAt
    ensures IsForest(t.(nodes := t.nodes[key := n])) <==> IsForest(t)
  {
    var t' := t.(nodes := t.nodes[key := n]);
    assert t.nodes == t'.nodes[key := t.nodes[key]];
    if IsForest(t) { RelabelKeepsForest(t, key, n); }
    if IsForest(t') { RelabelKeepsForest(t', key, t.nodes[key]); }
  }

  lemma ExitKeepsForest(t: Table, key: ProcKey, groupDead: bool, now: Time)
    requires IsForest(t)
    ensures IsForest(ExitStep(t, key, groupDead, now))
  {
    var rank: ProcKey -> nat :| RankedBy(t.nodes, rank);
    assert RankedBy(ExitStep(t, key, groupDead, now).nodes, rank);
  }

  lemma ReapKeepsForest(t: Table, now: Time, grace: nat)
    requires IsForest(t)
    ensures IsForest(ReapStep(t, now, grace))
  {
    var rank: ProcKey -> nat :| RankedBy(t.nodes, rank);
    assert RankedBy(ReapStep(t, now, grace).nodes, rank);
  }

  /** One event keeps the forest exactly when it is safe. */
  lemma StepKeepsForestIff(t: Table, e: Event)
    requires IsForest(t)
    ensures IsForest(Step(t, e)) <==> Safe(t, e)
  {
    match e
    case Fork(p, c) => ForkKeepsForestIff(t, p, c);
    case Exec(key, comm, uid, argv) =>
      EnsureKeepsForestIff(t, key);
      var t' := EnsureStep(t, key);
      RelabelKeepsForestIff(t', key, t'.nodes[key].(comm := comm, uid := uid, argv := argv));
    case ProcExec(key, exe) =>
      EnsureKeepsForestIff(t, key);
      var t' := EnsureStep(t, key);
      RelabelKeepsForestIff(t', key, t'.nodes[key].(exe := exe));
    case Exit(key, groupDead, now) => ExitKeepsForest(t, key, groupDead, now);
    case Reap(now, grace) => ReapKeepsForest(t, now, grace);
  }

  /** The table is a forest after every prefix of a run exactly when every event was safe. */
  lemma {:induction false} RunKeepsForestIff(t: Table, es: seq<Event>)
    requires IsForest(t)
    ensures SafeRun(t, es) <==> forall n | 0 <= n <= |es| :: IsForest(Run(t, es[..n]))
  {
    hide IsForest, Safe, Step;
    if es != [] {
      var front := es[..|es| - 1];
      RunKeepsForestIff(t, front);
      assert forall n | 0 <= n <= |front| :: front[..n] == es[..n];
      assert es[..|es|] == es;
      if SafeRun(t, front) {
        assert IsForest(Run(t, front[..|front|]));
        assert front[..|front|] == front;
        StepKeepsForestIff(Run(t, front), es[|es| - 1]);
      }
    }
  }

  // ---------------------------------------------------------------- what every run keeps, safe or not

  /** While a process has a placeholder and is indexed at all, the index names the placeholder. */
  ghost predicate PlaceholderIndexed(t: Table) {
    forall g | g in t.byTgid && Placeholder(g) in t.nodes :: t.byTgid[g] == Placeholder(g)
  }

  lemma EnsureKeepsIndex(t: Table, key: ProcKey)
    requires Keyed(t) && PlaceholderIndexed(t) && t.pendingParent == map[]
    ensures var t' := EnsureStep(t, key); Keyed(t') && PlaceholderIndexed(t') && t'.pendingParent == map[]
  {
  }

  lemma StepKeepsIndex(t: Table, e: Event)
    requires Keyed(t) && PlaceholderIndexed(t) && t.pendingParent == map[]
    ensures var t' := Step(t, e); Keyed(t') && PlaceholderIndexed(t') && t'.pendingParent == map[]
  {
    match e
    case Fork(_, _) =>
    case Exec(key, _, _, _) => EnsureKeepsIndex(t, key);
    case ProcExec(key, _) => EnsureKeepsIndex(t, key);
    case Exit(_, _, _) =>
    case Reap(_, _) =>
  }

  /** Even with tgid reuse, keys and index agree after every run, and `pendingParent` stays empty. */
  lemma {:induction false} AnyRunKeepsIndex(t: Table, es: seq<Event>)
    requires Keyed(t) && PlaceholderIndexed(t) && t.pendingParent == map[]
    ensures var t' := Run(t, es); Keyed(t') && PlaceholderIndexed(t') && t'.pendingParent == map[]
  {
    if es != [] {
      AnyRunKeepsIndex(t, es[..|es| - 1]);
      StepKeepsIndex(Run(t, es[..|es| - 1]), es[|es| - 1]);
    }
  }

  /** A lookup never returns another tgid's node, and after any run prefers the exact key,
      then a placeholder that is indexed. */
  lemma AnyRunResolvesWithinTgid(t: Table, es: seq<Event>, key: ProcKey)
    requires Keyed(t) && PlaceholderIndexed(t) && t.pendingParent == map[]
    ensures var t' := Run(t, es);
            var r := Resolve(t', key);
            && (r.Some? ==> r.value.key.tgid == key.tgid && r.value.key in t'.nodes && t'.nodes[r.value.key] == r.value)
            && (key in t'.nodes ==> r.Some? && r.value.key == key)
            && (key !in t'.nodes && key.tgid in t'.byTgid && Placeholder(key.tgid) in t'.nodes ==>
                  r == Some(t'.nodes[Placeholder(key.tgid)]))
  {
    AnyRunKeepsIndex(t, es);
  }
}
