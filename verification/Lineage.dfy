/** Process identity across tgid reuse: the table's ancestries against a log of what really happened. */
module Lineage {
  import opened Wrappers
  import opened Forest
  import opened Ancestry

  /** Who forked a process: an earlier birth in the log, or a process whose own birth was not seen. */
  datatype Origin = Observed(id: nat) | Outside(tgid: Tgid)

  datatype Birth = Birth(tgid: Tgid, start: nat, origin: Origin)

  /** Every birth seen so far, never forgotten, and which of them holds its tgid right now. */
  datatype World = World(births: seq<Birth>, holder: map<Tgid, nat>)

  const EMPTY_WORLD := World([], map[])

  datatype Happening =
    | Forks(parent: Tgid, child: Tgid, childStart: nat)
    | Execs(key: ProcKey, comm: string, uid: nat, argv: seq<string>)
    | ProcExecs(key: ProcKey, exe: string)
    | Exits(key: ProcKey, groupDead: bool, now: Time)
    | Reaps(now: Time, grace: nat)

  /** What the agent gets to see. The child's start time is not part of a fork event. */
  function Seen(h: Happening): Event {
    match h
    case Forks(p, c, _) => Fork(p, c)
    case Execs(key, comm, uid, argv) => Exec(key, comm, uid, argv)
    case ProcExecs(key, exe) => ProcExec(key, exe)
    case Exits(key, groupDead, now) => Exit(key, groupDead, now)
    case Reaps(now, grace) => Reap(now, grace)
  }

  function WorldStep(w: World, h: Happening): World {
    match h
    case Forks(p, c, start) =>
      var origin := if p in w.holder then Observed(w.holder[p]) else Outside(p);
      World(w.births + [Birth(c, start, origin)], w.holder[c := |w.births|])
    case Exits(key, true, _) => w.(holder := w.holder - {key.tgid})
    case _ => w
  }

  function TrueKey(w: World, i: nat): ProcKey
    requires i < |w.births|
  {
    ProcKey(w.births[i].tgid, w.births[i].start)
  }

  /** The event carries the start time of the process that holds the tgid. A process whose birth was not
      seen has some nonzero start time of its own. */
  ghost predicate SpeaksFor(w: World, key: ProcKey) {
    if key.tgid in w.holder then w.holder[key.tgid] < |w.births| && key == TrueKey(w, w.holder[key.tgid])
    else key.startTime != 0 && forall i | 0 <= i < |w.births| :: key != TrueKey(w, i)
  }

  /** A tgid is given out again only after its holder exited and its placeholder left the table, and with
      a start time it did not have before. */
  ghost predicate Lawful(w: World, t: Table, h: Happening) {
    match h
    case Forks(_, c, start) =>
      && c !in w.holder && Placeholder(c) !in t.nodes
      && start != 0 && ProcKey(c, start) !in t.nodes
      && forall i | 0 <= i < |w.births| :: ProcKey(c, start) != TrueKey(w, i)
    case Execs(key, _, _, _) => SpeaksFor(w, key) && (key.tgid !in w.holder ==> EnsureSafe(t, key))
    case ProcExecs(key, _) => SpeaksFor(w, key) && (key.tgid !in w.holder ==> EnsureSafe(t, key))
    case Exits(key, _, _) => SpeaksFor(w, key)
    case Reaps(_, _) => true
  }

  // ---------------------------------------------------------------- which table node is which process

  /** A real key is meant for the birth with that start time, a placeholder for a birth of its tgid. */
  predicate MeantFor(k: ProcKey, b: Birth) {
    b.tgid == k.tgid && (k.startTime == 0 || k.startTime == b.start)
  }

  function LastMeant(births: seq<Birth>, k: ProcKey): (r: Option<nat>)
    ensures r.Some? ==> r.value < |births| && MeantFor(k, births[r.value])
                        && forall j | r.value < j < |births| :: !MeantFor(k, births[j])
    ensures r.None? ==> forall j | 0 <= j < |births| :: !MeantFor(k, births[j])
  {
    if births == [] then None
    else if MeantFor(k, births[|births| - 1]) then Some(|births| - 1)
    else LastMeant(births[..|births| - 1], k)
  }

  /** The observed birth that a key of the table stands for: a real key for the birth with that start time, a
      placeholder for the latest birth of its tgid. Any other key belongs to a process seen without its birth. */
  function BirthOf(w: World, k: ProcKey): (r: Option<nat>)
    ensures r.Some? ==> r.value < |w.births|
  {
    LastMeant(w.births, k)
  }

  /** The keys of the table with the births they stand for. */
  type Who = map<ProcKey, nat>

  function WhoIn(w: World, t: Table): Who {
    map k | k in t.nodes && BirthOf(w, k).Some? :: BirthOf(w, k).value
  }

  ghost predicate WellBorn(w: World) {
    && (forall i | 0 <= i < |w.births| ::
          w.births[i].start != 0 && (w.births[i].origin.Observed? ==> w.births[i].origin.id < i))
    && (forall i, j | 0 <= i < j < |w.births| :: TrueKey(w, i) != TrueKey(w, j))
  }

  ghost predicate Named(w: World, t: Table, who: Who) {
    forall k | k in who ::
      && k in t.nodes && who[k] < |w.births|
      && k.tgid == w.births[who[k]].tgid
      && (k == TrueKey(w, who[k]) || (k.startTime == 0 && TrueKey(w, who[k]) !in t.nodes))
  }

  ghost predicate OneEach(who: Who) {
    forall k, l | k in who && l in who && who[k] == who[l] :: k == l
  }

  ghost predicate ParentMatches(origin: Origin, parent: Option<ProcKey>, who: Who) {
    match origin
    case Observed(j) => parent.Some? && parent.value in who && who[parent.value] == j
    case Outside(g) => parent.None? || (parent.value !in who && parent.value.tgid == g)
  }

  ghost predicate Linked(w: World, t: Table, who: Who) {
    && (forall k {:trigger t.nodes[k].parent} | k in who ::
          k in t.nodes && who[k] < |w.births| && ParentMatches(w.births[who[k]].origin, t.nodes[k].parent, who))
    && (forall k {:trigger t.nodes[k].parent} | k in t.nodes && k !in who && t.nodes[k].parent.Some? :: t.nodes[k].parent.value !in who)
  }

  ghost predicate Held(w: World, t: Table, who: Who) {
    && (forall g | g in w.holder :: g in t.byTgid && t.byTgid[g] in who && who[t.byTgid[g]] == w.holder[g])
    && (forall g | g in t.byTgid && t.byTgid[g] in who :: g in w.holder)
    && (forall k | k in who && k in t.nodes && t.nodes[k].exitedAt.None? ::
          k.tgid in w.holder && w.holder[k.tgid] == who[k])
  }

  ghost predicate TracksAs(w: World, t: Table, who: Who) {
    IsForest(t) && WellBorn(w) && Named(w, t, who) && OneEach(who) && Linked(w, t, who) && Held(w, t, who)
  }

  /** The table and the log correspond: each birth has at most one node, parents of observed births are the
      nodes of the births that forked them, and the index names exactly the live holders. */
  ghost predicate Tracks(w: World, t: Table) {
    TracksAs(w, t, WhoIn(w, t))
  }

  lemma BirthIsWellBorn(w: World, birth: Birth)
    requires WellBorn(w) && birth.start != 0 && (birth.origin.Observed? ==> birth.origin.id < |w.births|)
    requires forall i | 0 <= i < |w.births| :: ProcKey(birth.tgid, birth.start) != TrueKey(w, i)
    ensures forall holder :: WellBorn(World(w.births + [birth], holder))
  {
    forall holder
      ensures WellBorn(World(w.births + [birth], holder))
    {
      var w' := World(w.births + [birth], holder);
      assert forall i | 0 <= i < |w.births| :: TrueKey(w', i) == TrueKey(w, i);
    }
  }

  lemma ForkTracksNames(w: World, t: Table, who: Who, p: Tgid, c: Tgid, start: nat)
    requires Named(w, t, who) && OneEach(who) && Lawful(w, t, Forks(p, c, start))
    ensures var w', who' := WorldStep(w, Forks(p, c, start)), who[Placeholder(c) := |w.births|];
            Named(w', ForkStep(t, p, c), who') && OneEach(who')
  {
  }

  /** A fork onto a free placeholder adds one node and changes no other node's parent or exit. */
  lemma ForkAddsOne(t: Table, p: Tgid, c: Tgid)
    requires Placeholder(c) !in t.nodes && Indexed(t)
    ensures var t' := ForkStep(t, p, c);
            && t'.nodes.Keys == t.nodes.Keys + {Placeholder(c)}
            && (forall k | k in t.nodes ::
                  t'.nodes[k].parent == t.nodes[k].parent && t'.nodes[k].exitedAt == t.nodes[k].exitedAt)
            && t'.nodes[Placeholder(c)].parent == Lookup(t.byTgid, p)
            && t'.nodes[Placeholder(c)].exitedAt == None
            && t'.byTgid == t.byTgid[c := Placeholder(c)]
  {
  }

  lemma NoChildrenYet(t: Table, child: ProcKey)
    requires Mirrored(t.nodes) && child !in t.nodes
    ensures forall k | k in t.nodes :: t.nodes[k].parent != Some(child)
  {
  }

  /** The new node hangs under the holder of the forker's tgid, if that was observed. */
  lemma ForkedParentMatches(w: World, t: Table, who: Who, p: Tgid, child: ProcKey, id: nat)
    requires Held(w, t, who) && (forall g | g in t.byTgid :: t.byTgid[g].tgid == g && t.byTgid[g] != child)
    ensures ParentMatches(if p in w.holder then Observed(w.holder[p]) else Outside(p), Lookup(t.byTgid, p), who[child := id])
  {
  }

  lemma ParentStillMatches(origin: Origin, parent: Option<ProcKey>, who: Who, child: ProcKey, id: nat)
    requires ParentMatches(origin, parent, who) && parent != Some(child)
    ensures ParentMatches(origin, parent, who[child := id])
  {
  }

  /** One more node for one more birth leaves the other nodes' parents matching. */
  lemma ParentsStillMatch(w: World, t: Table, who: Who, t': Table, w': World, child: ProcKey)
    requires Linked(w, t, who) && (forall k | k in who :: k in t.nodes)
    requires |w'.births| == |w.births| + 1 && w'.births[..|w.births|] == w.births
    requires t'.nodes.Keys == t.nodes.Keys + {child} && child !in t.nodes
    requires forall k | k in t.nodes :: t'.nodes[k].parent == t.nodes[k].parent != Some(child)
    requires ParentMatches(w'.births[|w.births|].origin, t'.nodes[child].parent, who[child := |w.births|])
    ensures Linked(w', t', who[child := |w.births|])
  {
    var who' := who[child := |w.births|];
    hide ParentMatches;
    forall k | k in who'
      ensures k in t'.nodes && who'[k] < |w'.births| && ParentMatches(w'.births[who'[k]].origin, t'.nodes[k].parent, who')
    {
      if k != child {
        assert t'.nodes[k].parent == t.nodes[k].parent && w'.births[who[k]] == w.births[who[k]];
        ParentStillMatches(w.births[who[k]].origin, t.nodes[k].parent, who, child, |w.births|);
      }
    }
    forall k | k in t'.nodes && k !in who' && t'.nodes[k].parent.Some?
      ensures t'.nodes[k].parent.value !in who'
    {
      assert t.nodes[k].parent.value !in who;
    }
  }

  lemma ForkTracksLinks(w: World, t: Table, who: Who, p: Tgid, c: Tgid, start: nat)
    requires Indexed(t) && Linked(w, t, who) && Held(w, t, who)
    requires (forall g | g in t.byTgid :: t.byTgid[g].tgid == g) && forall k | k in who :: k in t.nodes
    requires forall k | k in t.nodes :: t.nodes[k].parent != Some(Placeholder(c))
    requires Lawful(w, t, Forks(p, c, start))
    ensures var w', who' := WorldStep(w, Forks(p, c, start)), who[Placeholder(c) := |w.births|];
            Linked(w', ForkStep(t, p, c), who')
  {
    ForkAddsOne(t, p, c);
    ForkedParentMatches(w, t, who, p, Placeholder(c), |w.births|);
    hide ForkStep, ParentMatches, Held, Linked;
    ParentsStillMatch(w, t, who, ForkStep(t, p, c), WorldStep(w, Forks(p, c, start)), Placeholder(c));
  }

  lemma ForkTracksHolders(w: World, t: Table, who: Who, p: Tgid, c: Tgid, start: nat)
    requires Indexed(t) && Named(w, t, who) && Held(w, t, who)
    requires forall g | g in t.byTgid :: t.byTgid[g].tgid == g
    requires Lawful(w, t, Forks(p, c, start))
    ensures var w', who' := WorldStep(w, Forks(p, c, start)), who[Placeholder(c) := |w.births|];
            Held(w', ForkStep(t, p, c), who')
  {
    ForkAddsOne(t, p, c);
    hide ForkStep, Held;
    OneMoreHeld(w, t, who, c, ForkStep(t, p, c), WorldStep(w, Forks(p, c, start)));
  }

  lemma OneMoreHeld(w: World, t: Table, who: Who, c: Tgid, t': Table, w': World)
    requires Held(w, t, who) && (forall k | k in who :: k in t.nodes) && forall g | g in t.byTgid :: t.byTgid[g] in t.nodes
    requires c !in w.holder && w'.holder == w.holder[c := |w.births|] && Placeholder(c) !in t.nodes
    requires t'.nodes.Keys == t.nodes.Keys + {Placeholder(c)} && t'.byTgid == t.byTgid[c := Placeholder(c)]
    requires forall k | k in t.nodes :: t'.nodes[k].exitedAt == t.nodes[k].exitedAt
    ensures Held(w', t', who[Placeholder(c) := |w.births|])
  {
  }

  lemma ForkTracks(w: World, t: Table, who: Who, p: Tgid, c: Tgid, start: nat)
    requires TracksAs(w, t, who) && Lawful(w, t, Forks(p, c, start))
    ensures TracksAs(WorldStep(w, Forks(p, c, start)), ForkStep(t, p, c), who[Placeholder(c) := |w.births|])
  {
    ForkKeepsForest(t, p, c);
    NoChildrenYet(t, Placeholder(c));
    var w' := WorldStep(w, Forks(p, c, start));
    BirthIsWellBorn(w, w'.births[|w.births|]);
    ForkTracksNames(w, t, who, p, c, start);
    ForkTracksLinks(w, t, who, p, c, start);
    ForkTracksHolders(w, t, who, p, c, start);
  }

  /** If the placeholder stands for an observed process, the event comes from that process. */
  lemma HolderIsThePlaceholder(w: World, t: Table, who: Who, key: ProcKey)
    requires TracksAs(w, t, who) && Promotes(t, key) && SpeaksFor(w, key)
    requires key.tgid !in w.holder ==> EnsureSafe(t, key)
    requires Placeholder(key.tgid) in who || key.tgid in w.holder
    ensures var from := Placeholder(key.tgid);
            && key.tgid in w.holder && from in who && who[from] == w.holder[key.tgid]
            && key == TrueKey(w, who[from]) && t.nodes[from].exitedAt.None? && t.byTgid[key.tgid] == from
  {
  }

  function RenamedWho(who: Who, from: ProcKey, to: ProcKey): Who {
    if from in who then (who - {from})[to := who[from]] else who
  }

  /** What a renaming does to one node, to who it is, and to its parent. */
  lemma RenamedWhoEntry(t: Table, who: Who, from: ProcKey, key: ProcKey, k: ProcKey)
    requires from in t.nodes && key !in t.nodes && Mirrored(t.nodes) && (forall x | x in who :: x in t.nodes)
    requires k in RenamedNodes(t.nodes, from, key)
    ensures var k0, who' := Renamed(k, key, from), RenamedWho(who, from, key);
            var p0, p := t.nodes[k0].parent, RenamedNodes(t.nodes, from, key)[k].parent;
            && k0 in t.nodes && (k in who' <==> k0 in who) && (k in who' ==> who'[k] == who[k0])
            && (p.Some? <==> p0.Some?)
            && (p.Some? ==> p == Some(Renamed(p0.value, from, key)) && p0.value in t.nodes
                            && (p.value in who' <==> p0.value in who)
                            && (p.value in who' ==> who'[p.value] == who[p0.value]))
  {
  }

  lemma RenamingTracksNames(w: World, t: Table, who: Who, from: ProcKey, to: ProcKey)
    requires Named(w, t, who) && OneEach(who)
    requires from in t.nodes && to !in t.nodes && from.tgid == to.tgid
    requires from in who ==> to == TrueKey(w, who[from])
    requires forall k | k in who && to == TrueKey(w, who[k]) :: k == from
    ensures var t', who' := t.(nodes := RenamedNodes(t.nodes, from, to)), RenamedWho(who, from, to);
            Named(w, t', who') && OneEach(who')
  {
    hide RenamedNode;
    var nodes := RenamedNodes(t.nodes, from, to);
    assert nodes.Keys == t.nodes.Keys - {from} + {to};
    hide RenamedNodes;
    assert OneEach(RenamedWho(who, from, to));
  }

  lemma RenamingTracksLinks(w: World, t: Table, who: Who, from: ProcKey, key: ProcKey)
    requires from in t.nodes && key !in t.nodes && from.tgid == key.tgid
    requires Mirrored(t.nodes) && Linked(w, t, who) && forall x | x in who :: x in t.nodes
    ensures Linked(w, t.(nodes := RenamedNodes(t.nodes, from, key)), RenamedWho(who, from, key))
  {
    var nodes, who' := RenamedNodes(t.nodes, from, key), RenamedWho(who, from, key);
    forall k | k in who'
      ensures k in nodes && who'[k] < |w.births| && ParentMatches(w.births[who'[k]].origin, nodes[k].parent, who')
    {
      RenamedWhoEntry(t, who, from, key, k);
      assert ParentMatches(w.births[who'[k]].origin, t.nodes[Renamed(k, key, from)].parent, who);
    }
    forall k | k in nodes && k !in who' && nodes[k].parent.Some?
      ensures nodes[k].parent.value !in who'
    {
      RenamedWhoEntry(t, who, from, key, k);
    }
  }

  lemma PromoteTracksHolders(w: World, t: Table, who: Who, key: ProcKey)
    requires TracksAs(w, t, who) && Promotes(t, key) && SpeaksFor(w, key)
    requires key.tgid !in w.holder ==> EnsureSafe(t, key)
    ensures var from := Placeholder(key.tgid);
            var t' := t.(nodes := RenamedNodes(t.nodes, from, key), byTgid := t.byTgid[key.tgid := key]);
            Held(w, t', RenamedWho(who, from, key))
  {
    var from := Placeholder(key.tgid);
    if from in who || key.tgid in w.holder { HolderIsThePlaceholder(w, t, who, key); }
    hide SpeaksFor, OneEach, Linked;
    RenamedHeld(w, t, who, from, key);
  }

  lemma RenamedHeld(w: World, t: Table, who: Who, from: ProcKey, to: ProcKey)
    requires from in t.nodes && to !in t.nodes && from.tgid == to.tgid && Held(w, t, who)
    requires (forall k | k in who :: k in t.nodes) && forall g | g in t.byTgid :: t.byTgid[g].tgid == g
    requires from in who || to.tgid in w.holder ==>
               && from in who && to.tgid in w.holder && who[from] == w.holder[to.tgid] && Lookup(t.byTgid, to.tgid) == Some(from)
    ensures var t' := t.(nodes := RenamedNodes(t.nodes, from, to), byTgid := t.byTgid[to.tgid := to]);
            Held(w, t', RenamedWho(who, from, to))
  {
  }

  lemma PromoteTracks(w: World, t: Table, who: Who, key: ProcKey)
    requires TracksAs(w, t, who) && Promotes(t, key) && SpeaksFor(w, key)
    requires key.tgid !in w.holder ==> EnsureSafe(t, key)
    ensures EnsureSafe(t, key) && TracksAs(w, PromoteStep(t, key), RenamedWho(who, Placeholder(key.tgid), key))
  {
    var from := Placeholder(key.tgid);
    if from in who || key.tgid in w.holder { HolderIsThePlaceholder(w, t, who, key); }
    PromotionRenamesEverywhere(t, key);
    PromotionKeepsForestIff(t, key);
    RenamingTracksNames(w, t, who, from, key);
    RenamingTracksLinks(w, t, who, from, key);
    PromoteTracksHolders(w, t, who, key);
  }

  lemma FreshTracksParts(w: World, t: Table, who: Who, key: ProcKey)
    requires Named(w, t, who) && Linked(w, t, who) && Held(w, t, who) && SpeaksFor(w, key)
    requires key !in t.nodes && key.tgid !in w.holder && t.pendingParent == map[]
    ensures var t' := FreshStep(t, key); Named(w, t', who) && Linked(w, t', who) && Held(w, t', who)
  {
    var t' := FreshStep(t, key);
    assert t'.nodes == t.nodes[key := NewNode(key)] && t'.byTgid == t.byTgid[key.tgid := key];
  }

  lemma FreshTracks(w: World, t: Table, who: Who, key: ProcKey)
    requires TracksAs(w, t, who) && SpeaksFor(w, key) && key !in t.nodes && !Promotes(t, key)
    ensures TracksAs(w, FreshStep(t, key), who)
  {
    FreshNodeKeepsForest(t, key);
    assert key.tgid !in w.holder;
    FreshTracksParts(w, t, who, key);
  }

  lemma RelabelTracks(w: World, t: Table, who: Who, key: ProcKey, n: ProcNode)
    requires TracksAs(w, t, who) && key in t.nodes
    requires SameLinks(t.nodes[key], n) && t.nodes[key].exitedAt == n.exitedAt
    ensures TracksAs(w, t.(nodes := t.nodes[key := n]), who)
  {
    RelabelKeepsForest(t, key, n);
    var t' := t.(nodes := t.nodes[key := n]);
    assert Named(w, t', who) && Linked(w, t', who) && Held(w, t', who);
  }

  lemma ExitTracksLinks(w: World, t: Table, who: Who, key: ProcKey, now: Time)
    requires WellBorn(w) && Named(w, t, who) && Linked(w, t, who)
    ensures var w', t' := WorldStep(w, Exits(key, true, now)), ExitStep(t, key, true, now);
            WellBorn(w') && Named(w', t', who) && Linked(w', t', who)
  {
    var w', t' := WorldStep(w, Exits(key, true, now)), ExitStep(t, key, true, now);
    assert forall i | 0 <= i < |w.births| :: TrueKey(w', i) == TrueKey(w, i);
    assert t'.nodes.Keys == t.nodes.Keys;
    assert forall k | k in t.nodes :: t'.nodes[k].parent == t.nodes[k].parent;
  }

  lemma ExitMarksOne(t: Table, key: ProcKey, now: Time)
    ensures var target, t' := ExitTarget(t, key), ExitStep(t, key, true, now);
            && t'.nodes.Keys == t.nodes.Keys && t'.byTgid == t.byTgid - {key.tgid}
            && forall k | k in t.nodes && k != target :: t'.nodes[k].exitedAt == t.nodes[k].exitedAt
    ensures var target, t' := ExitTarget(t, key), ExitStep(t, key, true, now);
            target in t.nodes ==> t'.nodes[target].exitedAt == Some(now)
  {
  }

  /** A live node of the dying group's tgid is the one that is marked. */
  lemma ExitMarksTheHolder(w: World, t: Table, who: Who, key: ProcKey, k: ProcKey)
    requires Keyed(t) && Indexed(t) && Named(w, t, who) && OneEach(who) && Held(w, t, who) && SpeaksFor(w, key)
    requires k in who && t.nodes[k].exitedAt.None? && k.tgid == key.tgid
    ensures k == ExitTarget(t, key)
  {
    assert k.tgid in w.holder && w.holder[k.tgid] == who[k];
    assert k == t.byTgid[key.tgid];
  }

  /** The index, the holders and the live nodes all lose the process `g`. */
  lemma HeldWithout(w: World, t: Table, who: Who, g: Tgid, t': Table, w': World)
    requires Held(w, t, who) && w'.holder == w.holder - {g} && t'.byTgid == t.byTgid - {g}
    requires forall k | k in who && k in t'.nodes && t'.nodes[k].exitedAt.None? ::
               k.tgid != g && k in t.nodes && t.nodes[k].exitedAt.None?
    ensures Held(w', t', who)
  {
  }

  lemma ExitTracksHolders(w: World, t: Table, who: Who, key: ProcKey, now: Time)
    requires Keyed(t) && Indexed(t) && Named(w, t, who) && OneEach(who) && Held(w, t, who)
    requires SpeaksFor(w, key)
    ensures Held(WorldStep(w, Exits(key, true, now)), ExitStep(t, key, true, now), who)
  {
    hide ExitStep, ExitTarget, OneEach, SpeaksFor, Held;
    ExitMarksOne(t, key, now);
    var t' := ExitStep(t, key, true, now);
    forall k | k in who && k in t'.nodes && t'.nodes[k].exitedAt.None?
      ensures k.tgid != key.tgid && t.nodes[k].exitedAt.None?
    {
      if k.tgid == key.tgid && t.nodes[k].exitedAt.None? { ExitMarksTheHolder(w, t, who, key, k); }
    }
    HeldWithout(w, t, who, key.tgid, t', WorldStep(w, Exits(key, true, now)));
  }

  lemma ExitTracks(w: World, t: Table, who: Who, key: ProcKey, groupDead: bool, now: Time)
    requires TracksAs(w, t, who) && SpeaksFor(w, key)
    ensures TracksAs(WorldStep(w, Exits(key, groupDead, now)), ExitStep(t, key, groupDead, now), who)
  {
    ExitKeepsForest(t, key, groupDead, now);
    if groupDead {
      ExitTracksLinks(w, t, who, key, now);
      ExitTracksHolders(w, t, who, key, now);
    }
  }

  function KeptWho(who: Who, nodes: Nodes): Who {
    map k | k in who && k in nodes :: who[k]
  }

  /** A survivor keeps its parent, and the parent survives too. */
  lemma ReapKeepsParents(t: Table, now: Time, grace: nat)
    requires IsForest(t)
    ensures var nodes := ReapStep(t, now, grace).nodes;
            forall k | k in nodes ::
              && k in t.nodes && nodes[k].parent == t.nodes[k].parent && nodes[k].exitedAt == t.nodes[k].exitedAt
              && (nodes[k].parent.Some? ==> nodes[k].parent.value in nodes)
  {
  }

  lemma ReapTracks(w: World, t: Table, who: Who, now: Time, grace: nat)
    requires TracksAs(w, t, who)
    ensures TracksAs(w, ReapStep(t, now, grace), KeptWho(who, ReapStep(t, now, grace).nodes))
  {
    ReapKeepsForest(t, now, grace);
    ReapKeepsParents(t, now, grace);
    var t' := ReapStep(t, now, grace);
    SubtableTracksLinks(w, t, who, t');
    assert Held(w, t', KeptWho(who, t'.nodes)) by {
      assert forall g | g in t.byTgid :: t.byTgid[g] in t'.nodes;
    }
  }

  lemma SubtableTracksLinks(w: World, t: Table, who: Who, t': Table)
    requires Named(w, t, who) && OneEach(who) && Linked(w, t, who)
    requires forall k | k in t'.nodes ::
               && k in t.nodes && t'.nodes[k].parent == t.nodes[k].parent
               && (t'.nodes[k].parent.Some? ==> t'.nodes[k].parent.value in t'.nodes)
    ensures var who' := KeptWho(who, t'.nodes);
            Named(w, t', who') && OneEach(who') && Linked(w, t', who')
  {
    var who' := KeptWho(who, t'.nodes);
    forall k | k in who'
      ensures ParentMatches(w.births[who'[k]].origin, t'.nodes[k].parent, who')
    {
      assert ParentMatches(w.births[who[k]].origin, t.nodes[k].parent, who);
    }
  }

  // ---------------------------------------------------------------- the births follow the keys

  lemma TrueKeyHasItsBirth(w: World, i: nat)
    requires WellBorn(w) && i < |w.births|
    ensures BirthOf(w, TrueKey(w, i)) == Some(i)
  {
    assert MeantFor(TrueKey(w, i), w.births[i]);
    var j := BirthOf(w, TrueKey(w, i)).value;
    assert TrueKey(w, j) == TrueKey(w, i);
  }

  /** No birth of the log has this key, neither as its real one nor as its placeholder. */
  ghost predicate Unobserved(w: World, k: ProcKey) {
    forall j | 0 <= j < |w.births| :: k != TrueKey(w, j) && k != Placeholder(w.births[j].tgid)
  }

  lemma UnobservedHasNoBirth(w: World, k: ProcKey)
    requires WellBorn(w)
    ensures BirthOf(w, k).None? <==> Unobserved(w, k)
  {
    forall j | 0 <= j < |w.births|
      ensures MeantFor(k, w.births[j]) <==> k == TrueKey(w, j) || k == Placeholder(w.births[j].tgid)
    {
    }
  }

  lemma NextBirth(w: World, birth: Birth, holder: map<Tgid, nat>, k: ProcKey)
    ensures BirthOf(World(w.births + [birth], holder), k) == if MeantFor(k, birth) then Some(|w.births|) else BirthOf(w, k)
  {
    assert (w.births + [birth])[..|w.births|] == w.births;
  }

  lemma OneMoreKey(w: World, t: Table, w': World, t': Table, k0: ProcKey, id: nat)
    requires t'.nodes.Keys == t.nodes.Keys + {k0} && BirthOf(w', k0) == Some(id)
    requires forall k | k in t.nodes && k != k0 :: BirthOf(w', k) == BirthOf(w, k)
    ensures WhoIn(w', t') == WhoIn(w, t)[k0 := id]
  {
    hide LastMeant;
  }

  lemma ForkFollows(w: World, t: Table, p: Tgid, c: Tgid, start: nat)
    requires Indexed(t) && Lawful(w, t, Forks(p, c, start))
    ensures WhoIn(WorldStep(w, Forks(p, c, start)), ForkStep(t, p, c)) == WhoIn(w, t)[Placeholder(c) := |w.births|]
  {
    hide ForkStep, BirthOf, WhoIn, Indexed;
    var w' := WorldStep(w, Forks(p, c, start));
    var birth := w'.births[|w.births|];
    ForkAddsOne(t, p, c);
    forall k | k in t.nodes || k == Placeholder(c)
      ensures BirthOf(w', k) == if k == Placeholder(c) then Some(|w.births|) else BirthOf(w, k)
    {
      NextBirth(w, birth, w'.holder, k);
      assert MeantFor(k, birth) <==> k == Placeholder(c) || k == ProcKey(c, start);
    }
    OneMoreKey(w, t, w', ForkStep(t, p, c), Placeholder(c), |w.births|);
  }

  lemma SameKeysSameWho(w: World, t: Table, w': World, t': Table)
    requires w'.births == w.births && t'.nodes.Keys == t.nodes.Keys
    ensures WhoIn(w', t') == WhoIn(w, t)
  {
  }

  lemma OneKeyRenamed(w: World, t: Table, t': Table, from: ProcKey, to: ProcKey)
    requires from in t.nodes && to !in t.nodes && t'.nodes.Keys == t.nodes.Keys - {from} + {to}
    requires BirthOf(w, to) == BirthOf(w, from)
    ensures WhoIn(w, t') == RenamedWho(WhoIn(w, t), from, to)
  {
    hide LastMeant;
  }

  /** The real key of a promoted placeholder stands for the birth for which the placeholder stood. */
  lemma PromotedBirth(w: World, t: Table, key: ProcKey)
    requires Tracks(w, t) && Promotes(t, key) && SpeaksFor(w, key)
    requires key.tgid !in w.holder ==> EnsureSafe(t, key)
    ensures BirthOf(w, key) == BirthOf(w, Placeholder(key.tgid))
  {
    var who, from := WhoIn(w, t), Placeholder(key.tgid);
    if from in who {
      HolderIsThePlaceholder(w, t, who, key);
      TrueKeyHasItsBirth(w, who[from]);
    } else {
      NoPlaceholderNoBirth(w, key);
    }
  }

  lemma NoPlaceholderNoBirth(w: World, key: ProcKey)
    requires BirthOf(w, Placeholder(key.tgid)).None?
    ensures BirthOf(w, key).None?
  {
    assert forall j | 0 <= j < |w.births| :: !MeantFor(Placeholder(key.tgid), w.births[j]);
  }

  lemma PromoteFollows(w: World, t: Table, key: ProcKey)
    requires Tracks(w, t) && Promotes(t, key) && SpeaksFor(w, key)
    requires key.tgid !in w.holder ==> EnsureSafe(t, key)
    ensures WhoIn(w, PromoteStep(t, key)) == RenamedWho(WhoIn(w, t), Placeholder(key.tgid), key)
  {
    hide WhoIn, BirthOf, SpeaksFor, RenamedWho;
    PromotedBirth(w, t, key);
    TracksForest(w, t);
    PromotionRenamesKeys(t, key);
    OneKeyRenamed(w, t, PromoteStep(t, key), Placeholder(key.tgid), key);
  }

  lemma PromotionRenamesKeys(t: Table, key: ProcKey)
    requires IsForest(t) && Promotes(t, key)
    ensures PromoteStep(t, key).nodes.Keys == t.nodes.Keys - {Placeholder(key.tgid)} + {key}
  {
    PromotionRenamesEverywhere(t, key);
  }

  lemma FreshAddsOne(t: Table, key: ProcKey)
    requires t.pendingParent == map[]
    ensures FreshStep(t, key).nodes == t.nodes[key := NewNode(key)]
    ensures FreshStep(t, key).byTgid == t.byTgid[key.tgid := key]
  {
  }

  lemma OneBlankKey(w: World, t: Table, t': Table, key: ProcKey)
    requires t'.nodes.Keys == t.nodes.Keys + {key} && BirthOf(w, key).None?
    ensures WhoIn(w, t') == WhoIn(w, t)
  {
    hide LastMeant;
  }

  lemma FreshFollows(w: World, t: Table, key: ProcKey)
    requires Tracks(w, t) && SpeaksFor(w, key) && key !in t.nodes && !Promotes(t, key)
    ensures WhoIn(w, FreshStep(t, key)) == WhoIn(w, t)
  {
    hide FreshStep, BirthOf, WhoIn;
    assert key.tgid !in w.holder;
    UnobservedHasNoBirth(w, key);
    FreshAddsOne(t, key);
    OneBlankKey(w, t, FreshStep(t, key), key);
  }

  lemma EnsureTracks(w: World, t: Table, key: ProcKey)
    requires Tracks(w, t) && SpeaksFor(w, key) && (key.tgid !in w.holder ==> EnsureSafe(t, key))
    ensures EnsureSafe(t, key) && Tracks(w, EnsureStep(t, key))
  {
    if key in t.nodes {
    } else if Promotes(t, key) {
      PromoteFollows(w, t, key);
      PromoteTracks(w, t, WhoIn(w, t), key);
    } else {
      FreshFollows(w, t, key);
      FreshTracks(w, t, WhoIn(w, t), key);
    }
  }

  lemma RelabelKeepsTracks(w: World, t: Table, key: ProcKey, n: ProcNode)
    requires Tracks(w, t) && key in t.nodes
    requires SameLinks(t.nodes[key], n) && t.nodes[key].exitedAt == n.exitedAt
    ensures Tracks(w, t.(nodes := t.nodes[key := n]))
  {
    RelabelTracks(w, t, WhoIn(w, t), key, n);
    SameKeysSameWho(w, t, w, t.(nodes := t.nodes[key := n]));
  }

  lemma ReapFollows(w: World, t: Table, now: Time, grace: nat)
    requires IsForest(t)
    ensures WhoIn(w, ReapStep(t, now, grace)) == KeptWho(WhoIn(w, t), ReapStep(t, now, grace).nodes)
  {
    ReapKeepsParents(t, now, grace);
  }

  /** Every lawful event is safe and keeps the correspondence. */
  lemma StepTracks(w: World, t: Table, h: Happening)
    requires Tracks(w, t) && Lawful(w, t, h)
    ensures Safe(t, Seen(h)) && Tracks(WorldStep(w, h), Step(t, Seen(h)))
  {
    hide TracksAs, WhoIn, EnsureStep, ForkStep, ReapStep, ExitStep;
    match h
    case Forks(p, c, start) =>
      ForkFollows(w, t, p, c, start) by { assert Indexed(t) by { TracksForest(w, t); } }
      ForkTracks(w, t, WhoIn(w, t), p, c, start);
    case Execs(key, comm, uid, argv) =>
      EnsureTracks(w, t, key);
      var t' := EnsureStep(t, key);
      RelabelKeepsTracks(w, t', key, t'.nodes[key].(comm := comm, uid := uid, argv := argv));
    case ProcExecs(key, exe) =>
      EnsureTracks(w, t, key);
      var t' := EnsureStep(t, key);
      RelabelKeepsTracks(w, t', key, t'.nodes[key].(exe := exe));
    case Exits(key, groupDead, now) =>
      ExitTracks(w, t, WhoIn(w, t), key, groupDead, now);
      ExitFollows(w, t, key, groupDead, now);
    case Reaps(now, grace) =>
      TracksForest(w, t);
      ReapFollows(w, t, now, grace);
      ReapTracks(w, t, WhoIn(w, t), now, grace);
  }

  lemma TracksForest(w: World, t: Table)
    requires Tracks(w, t)
    ensures IsForest(t) && WellBorn(w)
  {
  }

  lemma ExitFollows(w: World, t: Table, key: ProcKey, groupDead: bool, now: Time)
    ensures WhoIn(WorldStep(w, Exits(key, groupDead, now)), ExitStep(t, key, groupDead, now)) == WhoIn(w, t)
  {
    SameKeysSameWho(w, t, WorldStep(w, Exits(key, groupDead, now)), ExitStep(t, key, groupDead, now));
  }

  // ---------------------------------------------------------------- whole runs

  function WorldRun(w: World, hs: seq<Happening>): World {
    if hs == [] then w else WorldStep(WorldRun(w, hs[..|hs| - 1]), hs[|hs| - 1])
  }

  function TableRun(t: Table, hs: seq<Happening>): Table {
    if hs == [] then t else Step(TableRun(t, hs[..|hs| - 1]), Seen(hs[|hs| - 1]))
  }

  ghost predicate LawfulRun(w: World, t: Table, hs: seq<Happening>) {
    hs == [] ||
    var front := hs[..|hs| - 1];
    LawfulRun(w, t, front) && Lawful(WorldRun(w, front), TableRun(t, front), hs[|hs| - 1])
  }

  lemma {:induction false} RunTracks(t: Table, hs: seq<Happening>)
    requires IsForest(t) && LawfulRun(EMPTY_WORLD, t, hs)
    ensures Tracks(WorldRun(EMPTY_WORLD, hs), TableRun(t, hs))
  {
    if hs != [] {
      var front := hs[..|hs| - 1];
      RunTracks(t, front);
      StepTracks(WorldRun(EMPTY_WORLD, front), TableRun(t, front), hs[|hs| - 1]);
    }
  }

  /** The births from which `i` descends, nearest first, as far as they were observed. */
  function Forebears(w: World, i: nat): seq<nat>
    requires i < |w.births|
    decreases i
  {
    var o := w.births[i].origin;
    if o.Observed? && o.id < i then [o.id] + Forebears(w, o.id) else []
  }

  /** The tgid of the unobserved process at the top of that descent. */
  function TopForker(w: World, i: nat): Tgid
    requires i < |w.births|
    decreases i
  {
    match w.births[i].origin
    case Observed(j) => if j < i then TopForker(w, j) else 0
    case Outside(g) => g
  }

  /** `ks` spells out the lineage of birth `i`: first exactly the nodes of its observed forebears, then only
      nodes that are no observed process's, starting with one of the tgid that forked the first of them. */
  ghost predicate SpellsLineage(w: World, i: nat, ks: seq<ProcKey>)
    requires i < |w.births|
  {
    var up := Forebears(w, i);
    && |up| <= |ks|
    && (forall m | 0 <= m < |up| :: BirthOf(w, ks[m]) == Some(up[m]))
    && (forall m | |up| <= m < |ks| :: Unobserved(w, ks[m]))
    && (|ks| > |up| ==> ks[|up|].tgid == TopForker(w, i))
  }

  lemma {:induction false} OutsidePath(w: World, t: Table, who: Who, cur: Option<ProcKey>, ks: seq<ProcKey>)
    requires Linked(w, t, who) && IsPath(t.nodes, cur, ks) && (cur.Some? ==> cur.value !in who)
    ensures forall m | 0 <= m < |ks| :: ks[m] in t.nodes && ks[m] !in who
    decreases |ks|
  {
    if ks != [] {
      OutsidePath(w, t, who, t.nodes[ks[0]].parent, ks[1..]);
      assert forall m | 1 <= m < |ks| :: ks[m] == ks[1..][m - 1];
    }
  }

  lemma OutsideLineage(w: World, t: Table, k: ProcKey, ks: seq<ProcKey>)
    requires Tracks(w, t) && k in WhoIn(w, t) && IsPath(t.nodes, t.nodes[k].parent, ks)
    requires w.births[WhoIn(w, t)[k]].origin.Outside?
    ensures SpellsLineage(w, WhoIn(w, t)[k], ks)
  {
    var who, up := WhoIn(w, t), t.nodes[k].parent;
    assert ParentMatches(w.births[who[k]].origin, up, who);
    OutsidePath(w, t, who, up, ks);
    forall m | 0 <= m < |ks|
      ensures Unobserved(w, ks[m])
    {
      assert ks[m] in t.nodes && ks[m] !in who;
      UnobservedHasNoBirth(w, ks[m]);
    }
  }

  lemma {:induction false} PathSpellsLineage(w: World, t: Table, k: ProcKey, ks: seq<ProcKey>)
    requires Tracks(w, t) && k in t.nodes && BirthOf(w, k).Some? && IsPath(t.nodes, t.nodes[k].parent, ks)
    ensures SpellsLineage(w, BirthOf(w, k).value, ks)
    decreases |ks|
  {
    var who, i, up := WhoIn(w, t), BirthOf(w, k).value, t.nodes[k].parent;
    assert k in who && who[k] == i;
    assert ParentMatches(w.births[i].origin, up, who);
    match w.births[i].origin
    case Observed(j) =>
      assert ks[0] == up.value;
      PathSpellsLineage(w, t, up.value, ks[1..]);
      LineageGrows(w, i, j, ks);
    case Outside(g) =>
      OutsideLineage(w, t, k, ks);
  }

  lemma LineageGrows(w: World, i: nat, j: nat, ks: seq<ProcKey>)
    requires j < i < |w.births| && w.births[i].origin == Observed(j) && ks != []
    requires BirthOf(w, ks[0]) == Some(j) && SpellsLineage(w, j, ks[1..])
    ensures SpellsLineage(w, i, ks)
  {
    hide BirthOf, Unobserved;
    assert Forebears(w, i) == [j] + Forebears(w, j) && TopForker(w, i) == TopForker(w, j);
    forall m | 0 <= m < |ks|
      ensures m > 0 ==> ks[m] == ks[1..][m - 1]
      ensures 0 < m < |Forebears(w, i)| ==> Forebears(w, i)[m] == Forebears(w, j)[m - 1]
    {
    }
  }

  /** After any lawful run from any forest, the table's ancestry of every process whose fork was observed
      spells its lineage in the log: no other observed process is on it, dead or alive, and so no later
      holder of a forebear's tgid. No process has two nodes, and the index names every live one. */
  lemma IdentitySurvivesReuse(t: Table, hs: seq<Happening>)
    requires IsForest(t) && LawfulRun(EMPTY_WORLD, t, hs)
    ensures var w, t' := WorldRun(EMPTY_WORLD, hs), TableRun(t, hs);
            && (forall k | k in t'.nodes && BirthOf(w, k).Some? ::
                  && Ends(t'.nodes, t'.nodes[k].parent)
                  && SpellsLineage(w, BirthOf(w, k).value, PathOf(t'.nodes, t'.nodes[k].parent)))
            && (forall k, l | k in t'.nodes && l in t'.nodes && BirthOf(w, k).Some? && BirthOf(w, k) == BirthOf(w, l) :: k == l)
            && (forall g | g in w.holder ::
                  g in t'.byTgid && t'.byTgid[g] in t'.nodes && BirthOf(w, t'.byTgid[g]) == Some(w.holder[g]))
            && (forall i | 0 <= i < |w.births| :: BirthOf(w, TrueKey(w, i)) == Some(i))
  {
    RunTracks(t, hs);
    TrackedTablesSpell(WorldRun(EMPTY_WORLD, hs), TableRun(t, hs));
  }

  lemma TrackedTablesSpell(w: World, t: Table)
    requires Tracks(w, t)
    ensures forall k | k in t.nodes && BirthOf(w, k).Some? ::
              && Ends(t.nodes, t.nodes[k].parent)
              && SpellsLineage(w, BirthOf(w, k).value, PathOf(t.nodes, t.nodes[k].parent))
    ensures forall k, l | k in t.nodes && l in t.nodes && BirthOf(w, k).Some? && BirthOf(w, k) == BirthOf(w, l) :: k == l
    ensures forall g | g in w.holder ::
              g in t.byTgid && t.byTgid[g] in t.nodes && BirthOf(w, t.byTgid[g]) == Some(w.holder[g])
    ensures forall i | 0 <= i < |w.births| :: BirthOf(w, TrueKey(w, i)) == Some(i)
  {
    ForestWalksEnd(t.nodes);
    forall k | k in t.nodes && BirthOf(w, k).Some?
      ensures SpellsLineage(w, BirthOf(w, k).value, PathOf(t.nodes, t.nodes[k].parent))
    {
      PathSpellsLineage(w, t, k, PathOf(t.nodes, t.nodes[k].parent));
    }
    forall i | 0 <= i < |w.births|
      ensures BirthOf(w, TrueKey(w, i)) == Some(i)
    {
      TrueKeyHasItsBirth(w, i);
    }
    NodesAreTracked(w, t);
  }

  lemma NodesAreTracked(w: World, t: Table)
    requires Tracks(w, t)
    ensures forall k, l | k in t.nodes && l in t.nodes && BirthOf(w, k).Some? && BirthOf(w, k) == BirthOf(w, l) :: k == l
    ensures forall g | g in w.holder ::
              g in t.byTgid && t.byTgid[g] in t.nodes && BirthOf(w, t.byTgid[g]) == Some(w.holder[g])
  {
    var who := WhoIn(w, t);
    forall k, l | k in t.nodes && l in t.nodes && BirthOf(w, k).Some? && BirthOf(w, k) == BirthOf(w, l)
      ensures k == l
    {
      assert k in who && l in who && who[k] == who[l];
    }
  }
}
