/** What the alerts say about who forked whom, for feeds of events that really happened. */
module Attribution {
  import opened Wrappers
  import opened Forest
  import opened Ancestry
  import opened Lineage
  import opened EngineClass
  import opened Correlation
  import opened Rules
  import opened Agent
  import Seeding

  /** A record, and the start time of the child if it reports a fork. The agent does not get to see that. */
  datatype Fact = Fact(record: Message, childStart: nat)

  /** What happened, as far as the table is concerned. */
  function HappeningOf(f: Fact): (h: Option<Happening>)
    ensures TableEvent(f.record) == if h.Some? then Some(Seen(h.value)) else None
  {
    match f.record.body
    case ExecRecord(key, comm, uid, args) => Some(Execs(key, comm, uid, args))
    case ProcExecRecord(key, filename) => Some(ProcExecs(key, filename))
    case ForkRecord(tgid, _, childPid) => Some(Forks(tgid, childPid, f.childStart))
    case ExitRecord(key, groupDead) => Some(Exits(key, groupDead, f.record.now))
    case Tick => Some(Reaps(f.record.now, GRACE))
    case _ => None
  }

  /** The process a record asks the rules about. */
  function Subject(r: Message): Option<ProcKey> {
    match r.body
    case ProcExecRecord(key, _) => Some(key)
    case OpenRecord(key, _) => Some(key)
    case ConnectRecord(key, _, _) => Some(key)
    case _ => None
  }

  function WorldAfter(w: World, f: Fact): World {
    if HappeningOf(f).Some? then WorldStep(w, HappeningOf(f).value) else w
  }

  function WorldAfterAll(w: World, facts: seq<Fact>): World {
    if facts == [] then w else WorldAfter(WorldAfterAll(w, facts[..|facts| - 1]), facts[|facts| - 1])
  }

  /** What is reported did happen: it is lawful, and an event is reported under its process's own key. */
  ghost predicate LawfulFact(w: World, t: Table, f: Fact) {
    && (HappeningOf(f).Some? ==> Lawful(w, t, HappeningOf(f).value))
    && (Subject(f.record).Some? ==> SpeaksFor(w, Subject(f.record).value))
  }

  ghost predicate LawfulFeed(w: World, t: Table, facts: seq<Fact>)
    decreases |facts|
  {
    facts == [] ||
    (LawfulFact(w, t, facts[0]) && LawfulFeed(WorldAfter(w, facts[0]), TableAfter(t, facts[0].record), facts[1..]))
  }

  function RecordsOfFacts(facts: seq<Fact>): (r: seq<Message>)
    ensures |r| == |facts| && forall i | 0 <= i < |r| :: r[i] == facts[i].record
  {
    seq(|facts|, i requires 0 <= i < |facts| => facts[i].record)
  }

  lemma FactTracks(w: World, t: Table, f: Fact)
    requires Tracks(w, t) && LawfulFact(w, t, f)
    ensures Steady(t, f.record) && Tracks(WorldAfter(w, f), TableAfter(t, f.record))
  {
    hide Tracks, Lawful, Safe;
    if HappeningOf(f).Some? { StepTracks(w, t, HappeningOf(f).value); }
  }

  /** A feed of what really happened is safe for the table, and so all walks of the loop end. */
  lemma {:induction false} LawfulFeedIsSafe(w: World, t: Table, facts: seq<Fact>)
    requires Tracks(w, t) && LawfulFeed(w, t, facts)
    ensures SafeFeed(t, RecordsOfFacts(facts)) && AllWalksOfFeedEnd(t, RecordsOfFacts(facts))
    decreases |facts|
  {
    hide Tracks, Steady, LawfulFact, WalksEnd;
    var records := RecordsOfFacts(facts);
    if facts != [] {
      FactTracks(w, t, facts[0]);
      LawfulFeedIsSafe(WorldAfter(w, facts[0]), TableAfter(t, facts[0].record), facts[1..]);
      assert records[1..] == RecordsOfFacts(facts[1..]);
    }
    TracksForest(w, t);
    SafeFeedWalksEnd(t, records);
  }

  // ---------------------------------------------------------------- the ancestry that is reported

  /** `ancestry` labels nodes that spell the lineage of the process that holds the tgid, if its fork was observed. */
  ghost predicate Attributed(w: World, t: Table, key: ProcKey, ancestry: seq<string>) {
    key.tgid in w.holder ==>
      && w.holder[key.tgid] < |w.births|
      && exists ks :: NamesLineage(w, t, w.holder[key.tgid], ks, ancestry)
  }

  ghost predicate NamesLineage(w: World, t: Table, i: nat, ks: seq<ProcKey>, ancestry: seq<string>)
    requires i < |w.births|
  {
    && (forall k | k in ks :: k in t.nodes) && ancestry == Labels(NodesAt(t.nodes, ks))
    && SpellsLineage(w, i, ks)
  }

  /** A lookup under the key of a live observed process finds its node, whichever of its keys that is under. */
  lemma LookupFindsHolder(w: World, t: Table, key: ProcKey) returns (k: ProcKey)
    requires Tracks(w, t) && SpeaksFor(w, key) && key.tgid in w.holder
    ensures k in t.nodes && Resolve(t, key) == Some(t.nodes[k]) && BirthOf(w, k) == Some(w.holder[key.tgid])
  {
    TrackedTablesSpell(w, t);
    hide Tracks, BirthOf, SpellsLineage;
    k := if key in t.nodes then key else t.byTgid[key.tgid];
  }

  lemma ChainFromNode(t: Table, key: ProcKey, k: ProcKey)
    requires k in t.nodes && Resolve(t, key) == Some(t.nodes[k]) && WalkEnds(t, key)
    ensures var ks := PathOf(t.nodes, t.nodes[k].parent);
            (forall x | x in ks :: x in t.nodes) && ChainOf(t, key) == Labels(NodesAt(t.nodes, ks))
  {
    PathLinks(t.nodes, t.nodes[k].parent, PathOf(t.nodes, t.nodes[k].parent));
  }

  lemma {:induction false} ChainIsAttributed(w: World, t: Table, key: ProcKey)
    requires Tracks(w, t) && SpeaksFor(w, key) && WalkEnds(t, key)
    ensures Attributed(w, t, key, ChainOf(t, key))
  {
    if key.tgid in w.holder {
      var k := LookupFindsHolder(w, t, key);
      hide Tracks, BirthOf, SpellsLineage, Resolve, ChainOf, IsPath;
      ChainFromNode(t, key, k);
      var ks := PathOf(t.nodes, t.nodes[k].parent);
      PathSpellsLineage(w, t, k, ks);
      assert NamesLineage(w, t, w.holder[key.tgid], ks, ChainOf(t, key));
    }
  }

  /** The alert of a record, if there is one, is about a process of which it names the true forebears. */
  ghost predicate BlamesRight(w: World, t: Table, f: Fact, alert: Option<Alert>) {
    alert.Some? ==> Subject(f.record).Some? && Attributed(w, t, Subject(f.record).value, alert.value.ancestry)
  }

  lemma ObservedSubject(t: Table, r: Message)
    requires WalksEnd(t, r)
    ensures var o := ObservationOf(t, r);
            && (o.Some? <==> Subject(r).Some?)
            && (o.Some? ==> o.value.key == Subject(r).value && WalkEnds(t, o.value.key)
                            && o.value.facts.ancestry == ChainOf(t, o.value.key))
  {
    hide ChainOf, WalkEnds, ExeOf, ProcExecStep;
  }

  lemma AlertHasAncestry(alert: Alert, rules: seq<Rule>, earlier: seq<Input>, o: Obs, actor: string, formatDelay: nat -> string)
    requires IsOutcome(Some(alert), rules, earlier, o, actor, formatDelay)
    ensures alert.ancestry == o.facts.ancestry
  {
    hide IsReported, PriorFor;
  }

  lemma {:induction false} AlertIsAttributed(w: World, s: State, f: Fact, alert: Option<Alert>, rules: seq<Rule>,
                                             formatDelay: nat -> string)
    requires Tracks(w, s.table) && LawfulFact(w, s.table, f)
    requires WalksEnd(s.table, f.record) && Right(alert, rules, s, f.record, formatDelay)
    ensures BlamesRight(w, s.table, f, alert)
  {
    hide Tracks, Lawful, IsOutcome, ObservationOf, Subject, Attributed, SpeaksFor, WalksEnd, WalkEnds, HappeningOf;
    if alert.Some? {
      ObservedSubject(s.table, f.record);
      var o := ObservationOf(s.table, f.record).value;
      AlertHasAncestry(alert.value, rules, s.inputs, o, ActorOf(s.table, o.key), formatDelay);
      ChainIsAttributed(w, s.table, o.key);
    }
  }

  lemma {:induction false} NextFact(w: World, facts: seq<Fact>, n: nat)
    requires n < |facts|
    ensures WorldAfterAll(w, facts[..n + 1]) == WorldAfter(WorldAfterAll(w, facts[..n]), facts[n])
  {
    assert facts[..n + 1][..n] == facts[..n];
  }

  lemma {:induction false} RunMovesTable(states: seq<State>, records: seq<Message>, alerts: seq<Option<Alert>>,
                                         rules: seq<Rule>, formatDelay: nat -> string, n: nat)
    requires RightRun(states, records, alerts, rules, formatDelay) && n < |records|
    ensures states[n + 1].table == TableAfter(states[n].table, records[n])
  {
    hide Right, WalksEnd, TableAfter, InputsOf;
    assert RightStep(states[n], states[n + 1], records[n], alerts[n], rules, formatDelay);
  }

  lemma {:induction false} FeedMovesOn(w: World, t: Table, facts: seq<Fact>, n: nat)
    requires n < |facts| && Tracks(w, t) && LawfulFeed(w, t, facts[n..])
    ensures Tracks(WorldAfter(w, facts[n]), TableAfter(t, facts[n].record))
    ensures LawfulFeed(WorldAfter(w, facts[n]), TableAfter(t, facts[n].record), facts[n + 1..])
  {
    hide Tracks, LawfulFact, TableAfter, WorldAfter;
    assert facts[n..][0] == facts[n] && facts[n..][1..] == facts[n + 1..];
    FactTracks(w, t, facts[n]);
  }

  /** Between any two records of a run on a lawful feed the table tracks what really happened. */
  lemma {:induction false} RunTracksWorld(facts: seq<Fact>, states: seq<State>, alerts: seq<Option<Alert>>,
                                          rules: seq<Rule>, formatDelay: nat -> string, n: nat)
    requires RightRun(states, RecordsOfFacts(facts), alerts, rules, formatDelay) && n <= |facts|
    requires IsForest(states[0].table) && LawfulFeed(EMPTY_WORLD, states[0].table, facts)
    ensures var w := WorldAfterAll(EMPTY_WORLD, facts[..n]);
            Tracks(w, states[n].table) && LawfulFeed(w, states[n].table, facts[n..])
    decreases n
  {
    hide Tracks, TableAfter, WorldAfter, RightStep, LawfulFeed;
    if n == 0 {
      RunTracks(states[0].table, []);
      assert facts[0..] == facts && facts[..0] == [];
    } else {
      RunTracksWorld(facts, states, alerts, rules, formatDelay, n - 1);
      RunMovesTable(states, RecordsOfFacts(facts), alerts, rules, formatDelay, n - 1);
      FeedMovesOn(WorldAfterAll(EMPTY_WORLD, facts[..n - 1]), states[n - 1].table, facts, n - 1);
      NextFact(EMPTY_WORLD, facts, n - 1);
    }
  }

  /** For every lawful feed and from every forest, each alert the agent raises names, as the ancestry of a process
      whose fork was observed, its true forebears and no process that came to hold the tgid of one later. */
  lemma {:induction false} AlertsNameTrueForebears(facts: seq<Fact>, states: seq<State>, alerts: seq<Option<Alert>>,
                                                   rules: seq<Rule>, formatDelay: nat -> string, n: nat)
    requires RightRun(states, RecordsOfFacts(facts), alerts, rules, formatDelay) && n < |facts|
    requires IsForest(states[0].table) && LawfulFeed(EMPTY_WORLD, states[0].table, facts)
    ensures BlamesRight(WorldAfterAll(EMPTY_WORLD, facts[..n]), states[n].table, facts[n], alerts[n])
  {
    hide Tracks, LawfulFact, BlamesRight, Right;
    RunTracksWorld(facts, states, alerts, rules, formatDelay, n);
    assert facts[n..][0] == facts[n];
    assert RightStep(states[n], states[n + 1], RecordsOfFacts(facts)[n], alerts[n], rules, formatDelay);
    AlertIsAttributed(WorldAfterAll(EMPTY_WORLD, facts[..n]), states[n], facts[n], alerts[n], rules, formatDelay);
  }

  /** The whole agent on a feed of what really happened after a snapshot without ppid cycles: no walk is endless, every
      alert is the one the log demands, and it names true forebears. */
  method RunOnFacts(procs: seq<Seeding.ProcInfo>, parsed: seq<Rule>, formatDelay: nat -> string, records: seq<Message>,
                    ghost facts: seq<Fact>)
    returns (r: Result<seq<Option<Alert>>, LoadError>, ghost states: seq<State>)
    requires Seeding.DistinctTgids(procs) && Seeding.AcyclicPpids(Seeding.SnapshotOf(procs))
    requires records == RecordsOfFacts(facts) && ClockRuns(records)
    requires LawfulFeed(EMPTY_WORLD, Seeding.SeedStep(EMPTY_TABLE, procs), facts)
    ensures r.Ok? <==> Accepted(parsed)
    ensures r.Ok? ==>
              && RightRun(states, records, r.value, parsed, formatDelay)
              && forall n | 0 <= n < |facts| ::
                   BlamesRight(WorldAfterAll(EMPTY_WORLD, facts[..n]), states[n].table, facts[n], r.value[n])
  {
    hide RightStep, BlamesRight, LawfulFeed, IsForest, Tracks;
    ghost var t := Seeding.SeedStep(EMPTY_TABLE, procs);
    Seeding.SeedIsForestIff(procs);
    RunTracks(t, []);
    LawfulFeedIsSafe(EMPTY_WORLD, t, facts);
    r, states := RunAgent(procs, parsed, formatDelay, records);
    if r.Ok? {
      forall n | 0 <= n < |facts|
        ensures BlamesRight(WorldAfterAll(EMPTY_WORLD, facts[..n]), states[n].table, facts[n], r.value[n])
      {
        AlertsNameTrueForebears(facts, states, r.value, parsed, formatDelay, n);
      }
    }
  }
}
