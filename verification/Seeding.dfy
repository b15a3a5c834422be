/** Building the first table from a snapshot of the running processes. */
module Seeding {
  import opened Wrappers
  import opened Forest

  datatype ProcInfo = ProcInfo(
    tgid: Tgid, ppid: Tgid, startTimeNs: nat, comm: string, exe: string, argv: seq<string>, uid: nat)

  function KeyOf(p: ProcInfo): ProcKey {
    ProcKey(p.tgid, p.startTimeNs)
  }

  function SeedNode(p: ProcInfo): ProcNode {
    NewNode(KeyOf(p)).(comm := p.comm, exe := p.exe, argv := p.argv, uid := p.uid)
  }

  // ---------------------------------------------------------------- the two passes, one process at a time

  function InsertOne(t: Table, p: ProcInfo): Table {
    t.(nodes := t.nodes[KeyOf(p) := SeedNode(p)], byTgid := t.byTgid[p.tgid := KeyOf(p)])
  }

  function LinkOne(t: Table, p: ProcInfo): Table {
    if p.tgid !in t.byTgid || p.ppid !in t.byTgid then t
    else
      var child, parent := t.byTgid[p.tgid], t.byTgid[p.ppid];
      var nodes := if child in t.nodes then t.nodes[child := t.nodes[child].(parent := Some(parent))] else t.nodes;
      t.(nodes := AddChild(nodes, Some(parent), child))
  }

  function InsertAll(t: Table, ps: seq<ProcInfo>): Table {
    if ps == [] then t else InsertOne(InsertAll(t, ps[..|ps| - 1]), ps[|ps| - 1])
  }

  function LinkAll(t: Table, ps: seq<ProcInfo>): Table {
    if ps == [] then t else LinkOne(LinkAll(t, ps[..|ps| - 1]), ps[|ps| - 1])
  }

  function SeedStep(t: Table, ps: seq<ProcInfo>): Table {
    LinkAll(InsertAll(t, ps), ps)
  }

  // ---------------------------------------------------------------- what the table should be

  ghost predicate DistinctTgids(ps: seq<ProcInfo>) {
    forall i, j | 0 <= i < j < |ps| :: ps[i].tgid != ps[j].tgid
  }

  /** The snapshot as a lookup by tgid. */
  type Snapshot = m: map<Tgid, ProcInfo> | forall g | g in m :: m[g].tgid == g

  function SnapshotOf(ps: seq<ProcInfo>): Snapshot {
    if ps == [] then map[] else SnapshotOf(ps[..|ps| - 1])[ps[|ps| - 1].tgid := ps[|ps| - 1]]
  }

  predicate IsKeyOf(m: Snapshot, k: ProcKey) {
    k.tgid in m && KeyOf(m[k.tgid]) == k
  }

  function KeysOf(m: Snapshot): (r: set<ProcKey>)
    ensures forall k :: k in r <==> IsKeyOf(m, k)
  {
    var r := set g | g in m :: KeyOf(m[g]);
    assert forall k :: IsKeyOf(m, k) ==> KeyOf(m[k.tgid]) in r;
    r
  }

  /** The key of the process that `g` names as its parent, if the snapshot has it. */
  function ParentKey(m: Snapshot, g: Tgid): Option<ProcKey>
    requires g in m
  {
    if m[g].ppid in m then Some(KeyOf(m[m[g].ppid])) else None
  }

  /** The node of process `g` when the processes in `linked` have been attached to their parents. */
  function SeededNode(m: Snapshot, linked: set<Tgid>, g: Tgid): ProcNode
    requires g in m
  {
    SeedNode(m[g]).(parent := if g in linked then ParentKey(m, g) else None,
                    children := set c | c in KeysOf(m) && c.tgid in linked && m[c.tgid].ppid == g)
  }

  function SeededTable(m: Snapshot, linked: set<Tgid>): Table {
    Table(map k | k in KeysOf(m) :: SeededNode(m, linked, k.tgid), map[], map g | g in m :: KeyOf(m[g]))
  }

  lemma {:induction false} SnapshotIsExact(ps: seq<ProcInfo>)
    requires DistinctTgids(ps)
    ensures forall p | p in ps :: p.tgid in SnapshotOf(ps) && SnapshotOf(ps)[p.tgid] == p
    ensures forall g | g in SnapshotOf(ps) :: SnapshotOf(ps)[g] in ps
  {
    if ps != [] {
      var front, last := ps[..|ps| - 1], ps[|ps| - 1];
      SnapshotIsExact(front);
      forall p | p in ps
        ensures p.tgid in SnapshotOf(ps) && SnapshotOf(ps)[p.tgid] == p
      {
        var i :| 0 <= i < |ps| && ps[i] == p;
        if i < |front| { assert p in front; }
      }
    }
  }

  lemma NothingLinked(m: Snapshot, g: Tgid)
    requires g in m
    ensures SeededNode(m, {}, g) == SeedNode(m[g])
  {
  }

  lemma UnlinkedNodes(m: Snapshot)
    ensures SeededTable(m, {}).nodes == map k | k in KeysOf(m) :: SeedNode(m[k.tgid])
  {
    forall k | k in KeysOf(m)
      ensures SeededNode(m, {}, k.tgid) == SeedNode(m[k.tgid])
    {
      NothingLinked(m, k.tgid);
    }
  }

  lemma InsertedNodes(m: Snapshot, p: ProcInfo)
    requires p.tgid !in m
    ensures SeededTable(m[p.tgid := p], {}).nodes == SeededTable(m, {}).nodes[KeyOf(p) := SeedNode(p)]
  {
    hide SeededTable, SeededNode, SeedNode;
    var m' := m[p.tgid := p];
    UnlinkedNodes(m);
    UnlinkedNodes(m');
    MapExtends(KeysOf(m), KeysOf(m'), KeyOf(p), m, m');
  }

  lemma MapExtends(ks: set<ProcKey>, ks': set<ProcKey>, k0: ProcKey, m: Snapshot, m': Snapshot)
    requires forall k | k in ks :: k.tgid in m
    requires k0.tgid !in m && k0.tgid in m' && m' == m[k0.tgid := m'[k0.tgid]] && ks' == ks + {k0}
    ensures (map k | k in ks' :: SeedNode(m'[k.tgid])) == (map k | k in ks :: SeedNode(m[k.tgid]))[k0 := SeedNode(m'[k0.tgid])]
  {
  }

  lemma InsertOneIsExact(m: Snapshot, p: ProcInfo)
    requires p.tgid !in m
    ensures InsertOne(SeededTable(m, {}), p) == SeededTable(m[p.tgid := p], {})
  {
    InsertedNodes(m, p);
    hide KeysOf, SeededNode;
    assert SeededTable(m[p.tgid := p], {}).byTgid == SeededTable(m, {}).byTgid[p.tgid := KeyOf(p)];
  }

  lemma {:induction false} InsertAllIsExact(ps: seq<ProcInfo>)
    requires DistinctTgids(ps)
    ensures InsertAll(EMPTY_TABLE, ps) == SeededTable(SnapshotOf(ps), {})
  {
    if ps == [] {
      assert KeysOf(map[]) == {};
      assert SeededTable(map[], {}).nodes == map[];
    } else {
      var front, p := ps[..|ps| - 1], ps[|ps| - 1];
      InsertAllIsExact(front);
      SnapshotIsExact(front);
      assert p.tgid !in SnapshotOf(front);
      InsertOneIsExact(SnapshotOf(front), p);
    }
  }

  lemma LinkOneIsExact(m: Snapshot, linked: set<Tgid>, p: ProcInfo)
    requires linked <= m.Keys && p.tgid in m && m[p.tgid] == p && p.tgid !in linked
    ensures LinkOne(SeededTable(m, linked), p) == SeededTable(m, linked + {p.tgid})
  {
    var t, t' := SeededTable(m, linked), SeededTable(m, linked + {p.tgid});
    var child := KeyOf(p);
    hide KeysOf;
    forall k | k in t.nodes
      ensures LinkOne(t, p).nodes[k] == t'.nodes[k]
    {
      assert t'.nodes[k].children == if p.ppid == k.tgid then t.nodes[k].children + {child} else t.nodes[k].children;
    }
    assert LinkOne(t, p).nodes == t'.nodes;
  }

  function TgidsOf(ps: seq<ProcInfo>): set<Tgid> {
    if ps == [] then {} else TgidsOf(ps[..|ps| - 1]) + {ps[|ps| - 1].tgid}
  }

  lemma {:induction false} TgidsAreMembers(ps: seq<ProcInfo>)
    ensures forall g :: g in TgidsOf(ps) <==> exists i :: 0 <= i < |ps| && ps[i].tgid == g
  {
    if ps != [] {
      TgidsAreMembers(ps[..|ps| - 1]);
      assert ps == ps[..|ps| - 1] + [ps[|ps| - 1]];
    }
  }

  lemma {:induction false} LinkAllIsExact(all: seq<ProcInfo>, ps: seq<ProcInfo>)
    requires DistinctTgids(all) && ps <= all
    ensures LinkAll(SeededTable(SnapshotOf(all), {}), ps) == SeededTable(SnapshotOf(all), TgidsOf(ps))
  {
    if ps != [] {
      var front, p := ps[..|ps| - 1], ps[|ps| - 1];
      LinkAllIsExact(all, front);
      SnapshotIsExact(all);
      TgidsAreMembers(front);
      assert p == all[|ps| - 1] && forall i | 0 <= i < |front| :: front[i] == all[i];
      LinkOneIsExact(SnapshotOf(all), TgidsOf(front), p);
    }
  }

  /** Seeding an empty table makes exactly the snapshot's nodes, in whatever order it lists them: a parent
      is the key of the process's ppid if that is in the snapshot, and a child set is every process
      with that ppid. */
  lemma SeedIsExact(ps: seq<ProcInfo>)
    requires DistinctTgids(ps)
    ensures SeedStep(EMPTY_TABLE, ps) == SeededTable(SnapshotOf(ps), SnapshotOf(ps).Keys)
  {
    InsertAllIsExact(ps);
    LinkAllIsExact(ps, ps);
    SnapshotIsExact(ps);
    TgidsAreMembers(ps);
    assert TgidsOf(ps) == SnapshotOf(ps).Keys;
  }

  /** The same, process by process. */
  lemma SeedLinksByPpid(ps: seq<ProcInfo>, p: ProcInfo, q: ProcInfo)
    requires DistinctTgids(ps) && p in ps && q in ps
    ensures var nodes := SeedStep(EMPTY_TABLE, ps).nodes;
            && KeyOf(p) in nodes && KeyOf(q) in nodes
            && (nodes[KeyOf(p)].parent == Some(KeyOf(q)) <==> p.ppid == q.tgid)
            && (KeyOf(p) in nodes[KeyOf(q)].children <==> p.ppid == q.tgid)
            && nodes[KeyOf(p)].comm == p.comm && nodes[KeyOf(p)].exe == p.exe && nodes[KeyOf(p)].argv == p.argv
            && (forall k | k in nodes :: exists r :: r in ps && KeyOf(r) == k)
  {
    SeedIsExact(ps);
    SnapshotIsExact(ps);
    assert IsKeyOf(SnapshotOf(ps), KeyOf(p)) && IsKeyOf(SnapshotOf(ps), KeyOf(q));
  }

  /** Every listed process is found under its seeded key, unmarked, with all that was read of it, and is indexed. */
  lemma SeedRecordsAll(ps: seq<ProcInfo>, p: ProcInfo)
    requires DistinctTgids(ps) && p in ps
    ensures var t, key := SeedStep(EMPTY_TABLE, ps), ProcKey(p.tgid, p.startTimeNs);
            && Lookup(t.byTgid, p.tgid) == Some(key) && Resolve(t, key).Some?
            && var n := Resolve(t, key).value;
               && n.key == key && n.exe == p.exe && n.comm == p.comm && n.argv == p.argv && n.uid == p.uid
               && n.exitedAt == None
  {
    SeedIsExact(ps);
    SnapshotIsExact(ps);
    hide SeedStep;
    assert IsKeyOf(SnapshotOf(ps), KeyOf(p));
  }

  lemma SnapshotIgnoresOrder(ps: seq<ProcInfo>, qs: seq<ProcInfo>)
    requires DistinctTgids(ps) && DistinctTgids(qs) && forall p :: p in ps <==> p in qs
    ensures SnapshotOf(ps) == SnapshotOf(qs)
  {
    SnapshotIsExact(ps);
    SnapshotIsExact(qs);
    var m, n := SnapshotOf(ps), SnapshotOf(qs);
    forall g | g in m ensures g in n && n[g] == m[g] { assert m[g] in qs; }
    forall g | g in n ensures g in m { assert n[g] in ps; }
    assert m == n;
  }

  /** The order in which the snapshot lists the processes does not matter. */
  lemma SeedIgnoresOrder(ps: seq<ProcInfo>, qs: seq<ProcInfo>)
    requires DistinctTgids(ps) && DistinctTgids(qs) && forall p :: p in ps <==> p in qs
    ensures SeedStep(EMPTY_TABLE, ps) == SeedStep(EMPTY_TABLE, qs)
  {
    SnapshotIgnoresOrder(ps, qs);
    SeedIsExact(ps);
    SeedIsExact(qs);
  }

  // ---------------------------------------------------------------- the seeded table is a forest

  ghost predicate PpidRank(m: Snapshot, rank: Tgid -> nat) {
    forall g | g in m && m[g].ppid in m :: rank(m[g].ppid) < rank(g)
  }

  /** No process of the snapshot is its own ancestor. */
  ghost predicate AcyclicPpids(m: Snapshot) {
    exists rank: Tgid -> nat :: PpidRank(m, rank)
  }

  ghost function RankOfTgid(rank: Tgid -> nat): ProcKey -> nat {
    (k: ProcKey) => rank(k.tgid)
  }

  ghost function KeyRank(m: Snapshot, rank: ProcKey -> nat, g: Tgid): nat {
    if g in m then rank(KeyOf(m[g])) else 0
  }

  lemma SeededAcyclicIff(m: Snapshot)
    ensures Acyclic(SeededTable(m, m.Keys).nodes) <==> AcyclicPpids(m)
  {
    var nodes := SeededTable(m, m.Keys).nodes;
    if Acyclic(nodes) {
      var rank: ProcKey -> nat :| RankedBy(nodes, rank);
      forall g | g in m && m[g].ppid in m
        ensures KeyRank(m, rank, m[g].ppid) < KeyRank(m, rank, g)
      {
        assert KeyOf(m[g]) in nodes && nodes[KeyOf(m[g])].parent == Some(KeyOf(m[m[g].ppid]));
      }
      assert PpidRank(m, (g: Tgid) => KeyRank(m, rank, g));
    }
    if AcyclicPpids(m) {
      var rank: Tgid -> nat :| PpidRank(m, rank);
      assert RankedBy(nodes, RankOfTgid(rank));
    }
  }

  /** The seeded table is a forest exactly when no process in the snapshot is its own ancestor. */
  lemma SeedIsForestIff(ps: seq<ProcInfo>)
    requires DistinctTgids(ps)
    ensures IsForest(SeedStep(EMPTY_TABLE, ps)) <==> AcyclicPpids(SnapshotOf(ps))
    ensures Keyed(SeedStep(EMPTY_TABLE, ps)) && PlaceholderIndexed(SeedStep(EMPTY_TABLE, ps))
    ensures SeedStep(EMPTY_TABLE, ps).pendingParent == map[]
  {
    var m := SnapshotOf(ps);
    SeedIsExact(ps);
    SeededAcyclicIff(m);
    var t := SeededTable(m, m.Keys);
    assert Keyed(t) && PlaceholderIndexed(t) && Indexed(t);
    SeededMirrored(m);
  }

  lemma SeededMirrored(m: Snapshot)
    ensures Mirrored(SeededTable(m, m.Keys).nodes)
  {
  }
}
