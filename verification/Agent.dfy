/** The agent's event loop: in which order each record drives the table and the engine. */
module Agent {
  import opened Wrappers
  import opened Forest
  import opened Ancestry
  import opened ProcTableClass
  import opened Rules
  import opened Correlation
  import opened EngineClass
  import opened Stability
  import opened Reaping
  import Seeding

  /** Tombstones are kept for a minute. */
  const GRACE: nat := 60_000

  datatype Body =
    | ExecRecord(key: ProcKey, comm: string, uid: nat, args: seq<string>)
    | ProcExecRecord(key: ProcKey, filename: string)
    | ForkRecord(tgid: Tgid, start: nat, childPid: Tgid)
    | ExitRecord(key: ProcKey, groupDead: bool)
    | OpenRecord(key: ProcKey, filename: string)
    | ConnectRecord(key: ProcKey, addr: string, port: nat)
    | LsmRecord
    | Tick

  datatype Message = Message(body: Body, now: Time)

  /** What the loop holds: the table, and everything the engine was told. */
  datatype State = State(table: Table, inputs: seq<Input>)

  /** What a record does to the table, if anything. */
  function TableEvent(r: Message): Option<Event> {
    match r.body
    case ExecRecord(key, comm, uid, args) => Some(Exec(key, comm, uid, args))
    case ProcExecRecord(key, filename) => Some(ProcExec(key, filename))
    case ForkRecord(tgid, _, childPid) => Some(Fork(tgid, childPid))
    case ExitRecord(key, groupDead) => Some(Exit(key, groupDead, r.now))
    case Tick => Some(Reap(r.now, GRACE))
    case _ => None
  }

  /** The walks up the table that handling the record takes all end: before the record for what the rules see, and
      for a successful exec once more after it. */
  ghost predicate WalksEnd(t: Table, r: Message) {
    match r.body
    case ProcExecRecord(key, filename) => WalkEnds(t, key) && WalkEnds(ProcExecStep(t, key, filename), key)
    case OpenRecord(key, _) => WalkEnds(t, key)
    case ConnectRecord(key, _, _) => WalkEnds(t, key)
    case _ => true
  }

  /** The event the rules are asked about, described by the table as it is before the record. */
  ghost function ObservationOf(t: Table, r: Message): Option<Obs>
    requires WalksEnd(t, r)
  {
    match r.body
    case ProcExecRecord(key, filename) => Some(Obs(key, FactsOf(t, key, ExecEvent, filename, "", 0), r.now))
    case OpenRecord(key, filename) => Some(Obs(key, FactsOf(t, key, WriteEvent, filename, "", 0), r.now))
    case ConnectRecord(key, addr, port) => Some(Obs(key, FactsOf(t, key, ConnectEvent, ExeOf(t, key), addr, port), r.now))
    case _ => None
  }

  predicate Expires(r: Message) {
    r.body.ExitRecord? || r.body.Tick?
  }

  ghost function InputsOf(t: Table, r: Message): seq<Input>
    requires WalksEnd(t, r)
  {
    if ObservationOf(t, r).Some? then [Observe(ObservationOf(t, r).value)] else if Expires(r) then [Expire(r.now)] else []
  }

  function TableAfter(t: Table, r: Message): Table {
    if TableEvent(r).Some? then Step(t, TableEvent(r).value) else t
  }

  ghost function AfterRecord(s: State, r: Message): State
    requires WalksEnd(s.table, r)
  {
    State(TableAfter(s.table, r), s.inputs + InputsOf(s.table, r))
  }

  // ---------------------------------------------------------------- what each kind of record does

  /** What the rules get to see of a record: its kind and texts, and of the process what the lookup finds. */
  lemma RecordIsSeen(t: Table, r: Message)
    requires WalksEnd(t, r)
    ensures ObservationOf(t, r).Some? <==> r.body.ProcExecRecord? || r.body.OpenRecord? || r.body.ConnectRecord?
    ensures ObservationOf(t, r).Some? ==>
              var o := ObservationOf(t, r).value;
              var f := o.facts;
              var n := Resolve(t, r.body.key);
              && o.key == r.body.key && o.now == r.now
              && f.argv == (if n.Some? then n.value.argv else []) && f.uid == (if n.Some? then n.value.uid else 0)
              && (r.body.ProcExecRecord? ==> f.kind == ExecEvent && f.path == r.body.filename && f.dstIp == "" && f.dstPort == 0)
              && (r.body.OpenRecord? ==> f.kind == WriteEvent && f.path == r.body.filename && f.dstIp == "" && f.dstPort == 0)
              && (r.body.ConnectRecord? ==>
                    && f.kind == ConnectEvent && f.path == (if n.Some? then n.value.exe else "")
                    && f.dstIp == r.body.addr && f.dstPort == r.body.port)
  {
    hide ChainOf, ProcExecStep, Resolve;
  }

  /** What the engine is told: the events the rules are asked about, and a moment to prune at with every exit and tick. */
  lemma RecordIsTold(t: Table, r: Message)
    requires WalksEnd(t, r)
    ensures match r.body
            case ProcExecRecord(_, _) => ObservationOf(t, r).Some? && InputsOf(t, r) == [Observe(ObservationOf(t, r).value)]
            case OpenRecord(_, _) => ObservationOf(t, r).Some? && InputsOf(t, r) == [Observe(ObservationOf(t, r).value)]
            case ConnectRecord(_, _, _) => ObservationOf(t, r).Some? && InputsOf(t, r) == [Observe(ObservationOf(t, r).value)]
            case ExitRecord(_, _) => InputsOf(t, r) == [Expire(r.now)]
            case Tick => InputsOf(t, r) == [Expire(r.now)]
            case _ => InputsOf(t, r) == []
  {
    hide FactsOf, ProcExecStep, ExeOf;
  }

  /** What becomes of the table: an exec and a successful one are looked up with what the record says, a fork makes
      a placeholder, a group's death leaves the tgid unindexed, a tick deletes childless tombstones of more than a
      minute, and the other records change nothing. */
  lemma RecordReachesTable(t: Table, r: Message)
    requires IsForest(t)
    ensures var t' := TableAfter(t, r);
            match r.body
            case ExecRecord(key, comm, uid, args) =>
              Resolve(t', key).Some? && var n := Resolve(t', key).value; n.comm == comm && n.uid == uid && n.argv == args
            case ProcExecRecord(key, filename) => Resolve(t', key).Some? && Resolve(t', key).value.exe == filename
            case ForkRecord(tgid, _, childPid) =>
              && Lookup(t'.byTgid, childPid) == Some(ProcKey(childPid, 0)) && ProcKey(childPid, 0) in t'.nodes
              && t'.nodes[ProcKey(childPid, 0)].parent == Lookup(t.byTgid, tgid)
            case ExitRecord(key, groupDead) => if groupDead then key.tgid !in t'.byTgid else t' == t
            case Tick =>
              forall k :: k in t'.nodes <==>
                k in t.nodes && !(t.nodes[k].exitedAt.Some? && r.now > t.nodes[k].exitedAt.value + 60_000 && t.nodes[k].children == {})
            case _ => t' == t
  {
    match r.body
    case ExecRecord(key, comm, uid, args) => ExecIsRecorded(t, key, comm, uid, args);
    case ProcExecRecord(key, filename) => ProcExecIsRecorded(t, key, filename);
    case ForkRecord(tgid, _, childPid) => ForkIsRecorded(t, tgid, childPid);
    case ExitRecord(key, groupDead) => ExitIsRecorded(t, key, groupDead, r.now);
    case Tick => ReapRemovesExactly(t, r.now, GRACE);
    case _ =>
  }

  // ---------------------------------------------------------------- feeds

  /** Every walk that handling the feed takes ends. On any other feed the loop gets stuck in a walk. */
  ghost predicate AllWalksOfFeedEnd(t: Table, records: seq<Message>)
    decreases |records|
  {
    records == [] || (WalksEnd(t, records[0]) && AllWalksOfFeedEnd(TableAfter(t, records[0]), records[1..]))
  }

  predicate Steady(t: Table, r: Message) {
    TableEvent(r).Some? ==> Safe(t, TableEvent(r).value)
  }

  /** Every record of the feed does something safe to the table it finds. */
  predicate SafeFeed(t: Table, records: seq<Message>)
    decreases |records|
  {
    records == [] || (Steady(t, records[0]) && SafeFeed(TableAfter(t, records[0]), records[1..]))
  }

  lemma SteadyKeepsForest(t: Table, r: Message)
    requires IsForest(t)
    ensures IsForest(TableAfter(t, r)) <==> Steady(t, r)
  {
    if TableEvent(r).Some? { StepKeepsForestIff(t, TableEvent(r).value); }
  }

  /** On a forest the walks of a record end even if the record is not safe: no fork takes a walk. */
  lemma ForestWalksOfRecordEnd(t: Table, r: Message)
    requires IsForest(t)
    ensures WalksEnd(t, r)
  {
    ForestWalksEnd(t.nodes);
    if r.body.ProcExecRecord? { StepKeepsWalksIff(t, TableEvent(r).value); }
  }

  /** A feed that is safe for a forest takes only walks that end. */
  lemma {:induction false} SafeFeedWalksEnd(t: Table, records: seq<Message>)
    requires IsForest(t) && SafeFeed(t, records)
    ensures AllWalksOfFeedEnd(t, records)
    decreases |records|
  {
    if records != [] {
      ForestWalksOfRecordEnd(t, records[0]);
      SteadyKeepsForest(t, records[0]);
      SafeFeedWalksEnd(TableAfter(t, records[0]), records[1..]);
    }
  }

  ghost predicate ClockRuns(records: seq<Message>) {
    forall i, j | 0 <= i < j < |records| :: records[i].now <= records[j].now
  }

  /** The right thing to emit for a record: nothing for one the rules are not asked about, and otherwise what
      the log of all earlier inputs says. */
  ghost predicate Right(alert: Option<Alert>, rules: seq<Rule>, s: State, r: Message, formatDelay: nat -> string)
    requires WalksEnd(s.table, r)
  {
    var o := ObservationOf(s.table, r);
    if o.None? then alert.None?
    else IsOutcome(alert, rules, s.inputs, o.value, ActorOf(s.table, o.value.key), formatDelay)
  }

  /** A record is only ever answered by a rule for its own kind of event, which matches it. */
  lemma AlertFitsRecord(alert: Option<Alert>, rules: seq<Rule>, s: State, r: Message, formatDelay: nat -> string)
    requires WalksEnd(s.table, r) && Right(alert, rules, s, r, formatDelay) && alert.Some?
    ensures exists rule :: rule in rules && rule.id == alert.value.ruleId
              && ObservationOf(s.table, r).Some? && Matches(rule, ObservationOf(s.table, r).value.facts)
              && match r.body
                 case ProcExecRecord(_, _) => rule.on == ExecEvent
                 case OpenRecord(_, _) => rule.on == WriteEvent
                 case ConnectRecord(_, _, _) => rule.on == ConnectEvent
                 case _ => false
  {
    RecordIsSeen(s.table, r);
    var o := ObservationOf(s.table, r).value;
    ReportedRuleMatches(alert.value, rules, s.inputs, o, ActorOf(s.table, o.key), formatDelay);
  }

  lemma ReportedRuleMatches(a: Alert, rules: seq<Rule>, earlier: seq<Input>, o: Obs, actor: string, formatDelay: nat -> string)
    requires IsOutcome(Some(a), rules, earlier, o, actor, formatDelay)
    ensures exists rule :: rule in rules && rule.id == a.ruleId && rule.on == o.facts.kind && Matches(rule, o.facts)
  {
    hide Holds;
    var i: nat :| i < |rules| && IsReported(rules, earlier, o, Some(i))
                  && AlertFor(a, rules[i], rules, earlier, o, actor, formatDelay);
    assert rules[i] in rules && rules[i].id == a.ruleId;
  }

  /** `states` are the states between the records, each following from the one before, and every alert is the
      right one for its record. */
  ghost predicate RightRun(states: seq<State>, records: seq<Message>, alerts: seq<Option<Alert>>, rules: seq<Rule>,
                           formatDelay: nat -> string)
  {
    && |states| == |records| + 1 && |alerts| == |records|
    && (forall n | 0 <= n < |records| :: RightStep(states[n], states[n + 1], records[n], alerts[n], rules, formatDelay))
  }

  ghost predicate RightStep(s: State, s': State, r: Message, alert: Option<Alert>, rules: seq<Rule>,
                            formatDelay: nat -> string)
  {
    WalksEnd(s.table, r) && s' == AfterRecord(s, r) && Right(alert, rules, s, r, formatDelay)
  }

  // ---------------------------------------------------------------- one record

  /** The rules are asked before the table learns the new executable, so they see the process that was. The chain
      for the trace is walked afterwards, whether or not it is printed. */
  method HandleProcExec(table: ProcTable, engine: Engine, key: ProcKey, filename: string, now: Time)
    returns (alert: Option<Alert>, chain: seq<string>)
    requires engine.Valid() && Timely(engine.inputs, now)
    requires WalksEnd(table.View(), Message(ProcExecRecord(key, filename), now))
    modifies table, engine`history, engine`inputs
    ensures Handled(engine, Message(ProcExecRecord(key, filename), now), old(table.View()), table.View(), old(engine.inputs), alert)
    ensures WalkEnds(table.View(), key) && chain == ChainOf(table.View(), key)
  {
    ghost var r := Message(ProcExecRecord(key, filename), now);
    ghost var t := table.View();
    ghost var o := Obs(key, FactsOf(t, key, ExecEvent, filename, "", 0), now);
    hide FactsOf, IsOutcome, WalkEnds, ProcExecStep;
    assert ObservationOf(t, r) == Some(o);
    alert := engine.OnExec(table, key, filename, now);
    assert InputsOf(t, r) == [Observe(o)];
    table.OnProcExec(key, filename);
    chain := engine.Chain(table, key);
  }

  method HandleExit(table: ProcTable, engine: Engine, key: ProcKey, groupDead: bool, now: Time)
    requires engine.Valid()
    modifies table, engine`history, engine`inputs
    ensures Handled(engine, Message(ExitRecord(key, groupDead), now), old(table.View()), table.View(), old(engine.inputs), None)
  {
    hide WalksEnd, InputsOf, Right, ExitStep;
    ghost var r := Message(ExitRecord(key, groupDead), now);
    PruningRecord(State(table.View(), engine.inputs), r, engine.rules, engine.formatDelay);
    table.OnExit(key, groupDead, now);
    engine.ExpireHits(now);
  }

  method HandleOpen(table: ProcTable, engine: Engine, key: ProcKey, filename: string, now: Time)
    returns (alert: Option<Alert>)
    requires engine.Valid() && Timely(engine.inputs, now) && WalksEnd(table.View(), Message(OpenRecord(key, filename), now))
    modifies engine`history, engine`inputs
    ensures Handled(engine, Message(OpenRecord(key, filename), now), table.View(), table.View(), old(engine.inputs), alert)
  {
    ghost var r := Message(OpenRecord(key, filename), now);
    ghost var t := table.View();
    ghost var o := Obs(key, FactsOf(t, key, WriteEvent, filename, "", 0), now);
    assert ObservationOf(t, r) == Some(o) && TableEvent(r).None?;
    alert := engine.OnWrite(table, key, filename, now);
    assert InputsOf(t, r) == [Observe(o)];
  }

  method HandleConnect(table: ProcTable, engine: Engine, key: ProcKey, addr: string, port: nat, now: Time)
    returns (alert: Option<Alert>)
    requires engine.Valid() && Timely(engine.inputs, now) && WalksEnd(table.View(), Message(ConnectRecord(key, addr, port), now))
    modifies engine`history, engine`inputs
    ensures Handled(engine, Message(ConnectRecord(key, addr, port), now), table.View(), table.View(), old(engine.inputs), alert)
  {
    ghost var r := Message(ConnectRecord(key, addr, port), now);
    ghost var t := table.View();
    ghost var o := Obs(key, FactsOf(t, key, ConnectEvent, ExeOf(t, key), addr, port), now);
    assert ObservationOf(t, r) == Some(o) && TableEvent(r).None?;
    alert := engine.OnConnect(table, key, addr, port, now);
    assert InputsOf(t, r) == [Observe(o)];
  }

  method HandleTick(table: ProcTable, engine: Engine, now: Time)
    requires engine.Valid()
    modifies table, engine`history, engine`inputs
    ensures Handled(engine, Message(Tick, now), old(table.View()), table.View(), old(engine.inputs), None)
  {
    hide WalksEnd, InputsOf, Right, ReapStep, TableAfter;
    TickReaps(table.View(), now);
    PruningRecord(State(table.View(), engine.inputs), Message(Tick, now), engine.rules, engine.formatDelay);
    engine.ExpireHits(now);
    table.Reap(now, GRACE);
  }

  /** The record's whole effect: on the table, on what the engine was told, and the alert. */
  ghost predicate Handled(engine: Engine, r: Message, before: Table, after: Table, inputs: seq<Input>, alert: Option<Alert>)
    reads engine
    requires WalksEnd(before, r)
  {
    && engine.Valid()
    && after == TableAfter(before, r)
    && engine.inputs == inputs + InputsOf(before, r)
    && Right(alert, engine.rules, State(before, inputs), r, engine.formatDelay)
  }

  /** Neither asks the rules nor prunes the history. */
  lemma QuietRecord(s: State, r: Message, rules: seq<Rule>, formatDelay: nat -> string)
    requires r.body.ExecRecord? || r.body.ForkRecord? || r.body.LsmRecord?
    ensures WalksEnd(s.table, r) && InputsOf(s.table, r) == [] && Right(None, rules, s, r, formatDelay)
  {
  }

  /** Only prunes the history. */
  lemma PruningRecord(s: State, r: Message, rules: seq<Rule>, formatDelay: nat -> string)
    requires Expires(r)
    ensures WalksEnd(s.table, r) && InputsOf(s.table, r) == [Expire(r.now)] && Right(None, rules, s, r, formatDelay)
  {
  }

  lemma TickReaps(t: Table, now: Time)
    ensures TableAfter(t, Message(Tick, now)) == ReapStep(t, now, GRACE)
  {
  }

  method Handle(table: ProcTable, engine: Engine, r: Message) returns (alert: Option<Alert>)
    requires engine.Valid() && Timely(engine.inputs, r.now) && WalksEnd(table.View(), r)
    modifies table, engine`history, engine`inputs
    ensures Handled(engine, r, old(table.View()), table.View(), old(engine.inputs), alert)
  {
    hide WalksEnd, InputsOf, Right, ObservationOf, ExecStep, ForkStep, ProcExecStep, ExitStep, ReapStep, Timely;
    if r.body.ExecRecord? || r.body.ForkRecord? || r.body.LsmRecord? {
      QuietRecord(State(table.View(), engine.inputs), r, engine.rules, engine.formatDelay);
    }
    alert := None;
    match r.body
    case ExecRecord(key, comm, uid, args) => table.OnExec(key, comm, uid, args);
    case ProcExecRecord(key, filename) =>
      var chain;
      alert, chain := HandleProcExec(table, engine, key, filename, r.now);
    case ForkRecord(tgid, start, childPid) => table.OnFork(tgid, start, childPid);
    case ExitRecord(key, groupDead) => HandleExit(table, engine, key, groupDead, r.now);
    case OpenRecord(key, filename) => alert := HandleOpen(table, engine, key, filename, r.now);
    case ConnectRecord(key, addr, port) => alert := HandleConnect(table, engine, key, addr, port, r.now);
    case LsmRecord =>
    case Tick => HandleTick(table, engine, r.now);
  }

  lemma InputsAreNow(t: Table, r: Message, inputs: seq<Input>)
    requires WalksEnd(t, r) && Timely(inputs, r.now)
    ensures Timely(inputs + InputsOf(t, r), r.now)
  {
  }

  // ---------------------------------------------------------------- the loop

  /** Handles the first record of what is left of a feed. */
  method HandleNext(table: ProcTable, engine: Engine, r: Message, ghost rest: seq<Message>) returns (alert: Option<Alert>)
    requires engine.Valid() && Timely(engine.inputs, r.now) && rest != [] && rest[0] == r
    requires AllWalksOfFeedEnd(table.View(), rest)
    modifies table, engine`history, engine`inputs
    ensures engine.Valid() && Timely(engine.inputs, r.now)
    ensures RightStep(State(old(table.View()), old(engine.inputs)), State(table.View(), engine.inputs), r, alert,
                      engine.rules, engine.formatDelay)
    ensures AllWalksOfFeedEnd(table.View(), rest[1..])
  {
    hide TableAfter, WalksEnd, Right, InputsOf;
    ghost var s := State(table.View(), engine.inputs);
    InputsAreNow(s.table, r, s.inputs);
    alert := Handle(table, engine, r);
    assert State(table.View(), engine.inputs) == AfterRecord(s, r);
  }

  /** For every feed whose walks end and whose clock does not run backwards, the loop emits for each record
      exactly what the unpruned log of everything before it demands. */
  method Loop(table: ProcTable, engine: Engine, records: seq<Message>)
    returns (alerts: seq<Option<Alert>>, ghost states: seq<State>)
    requires engine.Valid() && engine.inputs == [] && ClockRuns(records)
    requires AllWalksOfFeedEnd(table.View(), records)
    modifies table, engine`history, engine`inputs
    ensures RightRun(states, records, alerts, engine.rules, engine.formatDelay)
    ensures engine.Valid() && states[0] == State(old(table.View()), [])
    ensures State(table.View(), engine.inputs) == states[|records|]
  {
    hide RightStep, RightRun, AllWalksOfFeedEnd, AfterRecord, Timely;
    alerts := [];
    states := [State(table.View(), [])];
    StartRun(states[0], engine.rules, engine.formatDelay);
    NothingIsTimely();
    for n := 0 to |records|
      invariant engine.Valid() && |states| == n + 1 && states[0] == State(old(table.View()), [])
      invariant State(table.View(), engine.inputs) == states[n]
      invariant RightRun(states, records[..n], alerts, engine.rules, engine.formatDelay)
      invariant AllWalksOfFeedEnd(table.View(), records[n..])
      invariant n < |records| ==> Timely(engine.inputs, records[n].now)
    {
      var alert := HandleNext(table, engine, records[n], records[n..]);
      ghost var s' := State(table.View(), engine.inputs);
      ExtendRun(states, records[..n], alerts, engine.rules, engine.formatDelay, s', records[n], alert);
      if n + 1 < |records| { StaysTimely(engine.inputs, records[n].now, records[n + 1].now); }
      NextRecord(records, n);
      alerts, states := alerts + [alert], states + [s'];
    }
    assert records[..|records|] == records;
  }

  lemma NextRecord(records: seq<Message>, n: nat)
    requires n < |records|
    ensures records[..n + 1] == records[..n] + [records[n]] && records[n..][1..] == records[n + 1..]
  {
  }

  lemma NothingIsTimely()
    ensures forall now :: Timely([], now)
  {
  }

  lemma StaysTimely(inputs: seq<Input>, now: Time, later: Time)
    requires Timely(inputs, now) && now <= later
    ensures Timely(inputs, later)
  {
  }

  lemma StartRun(s: State, rules: seq<Rule>, formatDelay: nat -> string)
    ensures RightRun([s], [], [], rules, formatDelay)
  {
  }

  lemma ExtendRun(states: seq<State>, records: seq<Message>, alerts: seq<Option<Alert>>, rules: seq<Rule>,
                  formatDelay: nat -> string, s': State, r: Message, alert: Option<Alert>)
    requires RightRun(states, records, alerts, rules, formatDelay)
    requires RightStep(states[|records|], s', r, alert, rules, formatDelay)
    ensures RightRun(states + [s'], records + [r], alerts + [alert], rules, formatDelay)
  {
    var states', records', alerts' := states + [s'], records + [r], alerts + [alert];
    forall n | 0 <= n < |records'|
      ensures RightStep(states'[n], states'[n + 1], records'[n], alerts'[n], rules, formatDelay)
    {
      if n < |records| {
        assert RightStep(states[n], states[n + 1], records[n], alerts[n], rules, formatDelay);
      }
    }
  }

  /** From start-up on: for an acceptable rule file and a feed whose walks up the seeded table end, every alert is
      the right one. An unacceptable rule file stops the agent. */
  method RunAgent(procs: seq<Seeding.ProcInfo>, parsed: seq<Rule>, formatDelay: nat -> string, records: seq<Message>)
    returns (r: Result<seq<Option<Alert>>, LoadError>, ghost states: seq<State>)
    requires AllWalksOfFeedEnd(Seeding.SeedStep(EMPTY_TABLE, procs), records) && ClockRuns(records)
    ensures r.Ok? <==> Accepted(parsed)
    ensures r.Ok? ==> RightRun(states, records, r.value, parsed, formatDelay)
                      && states[0] == State(Seeding.SeedStep(EMPTY_TABLE, procs), [])
  {
    states := [];
    var table := new ProcTable();
    table.Seed(procs);
    var loaded := Engine.LoadEngine(parsed, formatDelay);
    if loaded.Err? {
      return Err(loaded.error), [];
    }
    var alerts;
    alerts, states := Loop(table, loaded.value, records);
    r := Ok(alerts);
  }
}
