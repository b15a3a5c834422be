/** The correlation engine: a pruned history in place, proved against the log of all its inputs. */
module EngineClass {
  import opened Wrappers
  import opened Collections
  import opened Forest
  import opened Ancestry
  import opened ProcTableClass
  import opened Rules
  import opened Rendering
  import opened Correlation

  datatype Alert = Alert(
    ruleId: string, severity: Severity, attack: seq<string>, message: string, ancestry: seq<string>)

  // ---------------------------------------------------------------- what the engine reads from the table

  function Label(n: ProcNode): string {
    if n.exe == "" then n.comm else n.exe
  }

  function Labels(nodes: seq<ProcNode>): (r: seq<string>)
    ensures |r| == |nodes| && forall i | 0 <= i < |r| :: r[i] == Label(nodes[i])
  {
    seq(|nodes|, i requires 0 <= i < |nodes| => Label(nodes[i]))
  }

  ghost predicate WalkEnds(t: Table, key: ProcKey) {
    var n := Resolve(t, key);
    n.Some? ==> Ends(t.nodes, n.value.parent)
  }

  ghost function ChainOf(t: Table, key: ProcKey): seq<string>
    requires WalkEnds(t, key)
  {
    var n := Resolve(t, key);
    if n.None? then []
    else
      var ks := PathOf(t.nodes, n.value.parent);
      PathLinks(t.nodes, n.value.parent, ks);
      Labels(NodesAt(t.nodes, ks))
  }

  function ActorOf(t: Table, key: ProcKey): string {
    var n := Resolve(t, key);
    if n.Some? then Label(n.value) else ""
  }

  function ExeOf(t: Table, key: ProcKey): string {
    var n := Resolve(t, key);
    if n.Some? then n.value.exe else ""
  }

  /** The facts about an event that the rules get to see. */
  ghost function FactsOf(t: Table, key: ProcKey, kind: EventKind, path: string, dstIp: string, dstPort: nat): EventFacts
    requires WalkEnds(t, key)
  {
    var n := Resolve(t, key);
    EventFacts(kind, path, ChainOf(t, key), if n.Some? then n.value.argv else [], if n.Some? then n.value.uid else 0,
               dstIp, dstPort)
  }

  // ---------------------------------------------------------------- what an alert has to say

  function Described(prior: Option<Hit>, now: Time, formatDelay: nat -> string): Option<(string, string)> {
    if prior.None? then None else Some((prior.value.path, formatDelay(Elapsed(now, prior.value.at))))
  }

  /** The prior hit that rule `r` may name in its message: none without a correlation, else the right one. */
  ghost predicate PriorFor(rules: seq<Rule>, earlier: seq<Input>, o: Obs, r: Rule, prior: Option<Hit>) {
    if r.correlate.None? then prior.None?
    else
      && prior.Some? && RuleWindow(r).Some?
      && IsRightPrior(prior, rules, earlier, o.key, r.correlate.value.after, RuleWindow(r).value,
                      r.correlate.value.sameProcess, o.now)
  }

  ghost predicate AlertFor(alert: Alert, r: Rule, rules: seq<Rule>, earlier: seq<Input>, o: Obs, actor: string,
                           formatDelay: nat -> string)
  {
    && alert.ruleId == r.id && alert.severity == r.severity && alert.attack == r.attack
    && alert.ancestry == o.facts.ancestry
    && exists prior :: PriorFor(rules, earlier, o, r, prior)
                       && alert.message == Rendered(r, o.facts, ExtraSubst(actor, Described(prior, o.now, formatDelay)))
  }

  /** The right outcome of an event, judged by the log of everything that came before it: no alert if no
      rule fires, else an alert for the first rule that does. */
  ghost predicate IsOutcome(alert: Option<Alert>, rules: seq<Rule>, earlier: seq<Input>, o: Obs, actor: string,
                            formatDelay: nat -> string)
  {
    match alert
    case None => IsReported(rules, earlier, o, None)
    case Some(a) =>
      exists i: nat :: i < |rules| && IsReported(rules, earlier, o, Some(i))
                       && AlertFor(a, rules[i], rules, earlier, o, actor, formatDelay)
  }

  /** The indices of the matching rules, in order. */
  ghost function Matched(rules: seq<Rule>, facts: EventFacts): (m: seq<nat>)
    ensures forall i | 0 <= i < |m| :: m[i] < |rules| && Matches(rules[m[i]], facts)
    ensures forall i, j | 0 <= i < j < |m| :: m[i] < m[j]
    ensures forall n | 0 <= n < |rules| && Matches(rules[n], facts) :: n in m
  {
    if rules == [] then []
    else
      var n := |rules| - 1;
      Matched(rules[..n], facts) + if Matches(rules[n], facts) then [n] else []
  }

  lemma {:induction false} HitsByIndex(rules: seq<Rule>, o: Obs)
    ensures var m := Matched(rules, o.facts);
            |Hits(rules, o)| == |m| && forall i | 0 <= i < |m| :: Hits(rules, o)[i] == HitOf(rules[m[i]], o)
  {
    if rules != [] {
      HitsByIndex(rules[..|rules| - 1], o);
    }
  }

  /** Every correlated rule has a window, as validation makes sure. */
  ghost predicate WindowsKnown(rules: seq<Rule>) {
    forall r | r in rules && r.correlate.Some? :: RuleWindow(r).Some?
  }

  lemma PlainExtras(facts: EventFacts, actor: string, prior: Option<(string, string)>)
    requires PlainValues(FactSubst(facts)) && Plain(actor) && (prior.Some? ==> Plain(prior.value.0) && Plain(prior.value.1))
    ensures PlainValues(FactSubst(facts) + ExtraSubst(actor, prior))
  {
    hide FactSubst, Plain;
  }

  /** Every token of an alert's rule has a value, the message is the one-pass substitution of inert values, and it
      has nothing in braces left when no recorded text has an opening brace: validation lets only correlated
      rules name a prior hit, and those have one. */
  lemma AlertMessageIsComplete(a: Alert, r: Rule, rules: seq<Rule>, earlier: seq<Input>, o: Obs, actor: string,
                               formatDelay: nat -> string)
    requires Accepted(rules) && r in rules && AlertFor(a, r, rules, earlier, o, actor, formatDelay)
    ensures exists prior :: PriorFor(rules, earlier, o, r, prior)
              && FilledIn(a.message, r, FactSubst(o.facts) + ExtraSubst(actor, Described(prior, o.now, formatDelay)))
    ensures PlainValues(FactSubst(o.facts)) && Plain(actor) && (forall n :: Plain(formatDelay(n)))
            && (forall i | 0 <= i < |earlier| && earlier[i].Observe? :: Plain(earlier[i].obs.facts.path))
            ==> forall name :: !IsSubstring(Braced(name), a.message)
  {
    var prior :| PriorFor(rules, earlier, o, r, prior)
                 && a.message == Rendered(r, o.facts, ExtraSubst(actor, Described(prior, o.now, formatDelay)));
    hide Rendered, FactSubst, ExtraSubst, WindowOf, Plain, IsSubstring, FilledIn, PlainValues, Witnesses;
    AcceptedMessageIsFilledIn(rules, r, o.facts, actor, Described(prior, o.now, formatDelay));
    if PlainValues(FactSubst(o.facts)) && Plain(actor) && (forall n :: Plain(formatDelay(n)))
       && (forall i | 0 <= i < |earlier| && earlier[i].Observe? :: Plain(earlier[i].obs.facts.path)) {
      PlainExtras(o.facts, actor, Described(prior, o.now, formatDelay));
    }
  }

  /** The message of an alert and its values: the event's own texts, and for a correlated rule the path of the
      witnessing event and the text of the time since then. */
  ghost predicate Tells(message: string, r: Rule, earlier: seq<Input>, rules: seq<Rule>, o: Obs, actor: string,
                        formatDelay: nat -> string, subst: Subst, prior: Option<(string, string)>)
  {
    && message == ReplaceAll(r.message, subst) && NamesFacts(EnvOf(subst), o.facts, actor, prior)
    && (r.correlate.None? ==> prior.None?)
    && (r.correlate.Some? ==> prior.Some? && RuleWindow(r).Some? && exists i :: TellsOf(r, earlier, rules, o, formatDelay, prior, i))
  }

  ghost predicate TellsOf(r: Rule, earlier: seq<Input>, rules: seq<Rule>, o: Obs, formatDelay: nat -> string,
                          prior: Option<(string, string)>, i: nat)
    requires r.correlate.Some? && RuleWindow(r).Some? && prior.Some?
  {
    var c := r.correlate.value;
    && WitnessAt(rules, earlier, i, c.after, RuleWindow(r).value, c.sameProcess, o.key, o.now)
    && earlier[i].obs.now <= o.now
    && (forall j: nat | WitnessAt(rules, earlier, j, c.after, RuleWindow(r).value, c.sameProcess, o.key, o.now) ::
          if c.sameProcess then j <= i else earlier[j].obs.now <= earlier[i].obs.now)
    && prior == Some((earlier[i].obs.facts.path, formatDelay(o.now - earlier[i].obs.now)))
  }

  /** Every alert tells what happened. */
  lemma AlertTellsFacts(a: Alert, r: Rule, rules: seq<Rule>, earlier: seq<Input>, o: Obs, actor: string,
                        formatDelay: nat -> string)
    requires AlertFor(a, r, rules, earlier, o, actor, formatDelay) && Timely(earlier, o.now)
    ensures exists subst, prior :: Tells(a.message, r, earlier, rules, o, actor, formatDelay, subst, prior)
  {
    hide FactSubst, ExtraSubst, NamesFacts, Witnesses, ReplaceAll, EnvOf;
    var hit :| PriorFor(rules, earlier, o, r, hit)
               && a.message == Rendered(r, o.facts, ExtraSubst(actor, Described(hit, o.now, formatDelay)));
    var prior := Described(hit, o.now, formatDelay);
    EngineNamesFacts(o.facts, actor, prior);
    if hit.Some? {
      var c := r.correlate.value;
      var i: nat :| IsPriorAt(hit.value, rules, earlier, i, o.key, c.after, RuleWindow(r).value, c.sameProcess, o.now);
      assert TimeOf(earlier[i]) <= o.now;
      assert TellsOf(r, earlier, rules, o, formatDelay, prior, i);
    }
    assert Tells(a.message, r, earlier, rules, o, actor, formatDelay, FactSubst(o.facts) + ExtraSubst(actor, prior), prior);
  }

  /** A rule fires when it matches and, if it is correlated, an earlier event less than its window ago matched the
      rule it comes after, in the same process if so asked. */
  lemma FiresMeans(rules: seq<Rule>, earlier: seq<Input>, o: Obs, r: Rule)
    ensures Fires(rules, earlier, o, r) <==>
            && Matches(r, o.facts)
            && (r.correlate.Some? ==>
                  exists i, x, w :: 0 <= i < |earlier| && earlier[i].Observe? && x in rules
                    && x.id == r.correlate.value.after && Matches(x, earlier[i].obs.facts)
                    && WindowOf(r.correlate.value) == Some(w) && o.now < earlier[i].obs.now + w
                    && (r.correlate.value.sameProcess ==> earlier[i].obs.key == o.key))
  {
    hide Matches, WindowOf;
    if Fires(rules, earlier, o, r) && r.correlate.Some? {
      var c, w := r.correlate.value, RuleWindow(r).value;
      var i: nat :| WitnessAt(rules, earlier, i, c.after, w, c.sameProcess, o.key, o.now);
      var x :| x in rules && x.id == c.after && Matches(x, earlier[i].obs.facts);
      assert WindowOf(c) == Some(w);
    }
    if r.correlate.Some? {
      var c := r.correlate.value;
      forall i, x, w | 0 <= i < |earlier| && earlier[i].Observe? && x in rules && x.id == c.after
                       && Matches(x, earlier[i].obs.facts) && WindowOf(c) == Some(w) && o.now < earlier[i].obs.now + w
                       && (c.sameProcess ==> earlier[i].obs.key == o.key)
        ensures WitnessAt(rules, earlier, i, c.after, w, c.sameProcess, o.key, o.now) && RuleWindow(r) == Some(w)
      {
      }
    }
  }

  /** An event without an alert fires no rule. An alert is the first firing rule's, with its id, severity, attack
      and the ancestry that the rules saw. */
  lemma OutcomeMeans(alert: Option<Alert>, rules: seq<Rule>, earlier: seq<Input>, o: Obs, actor: string,
                     formatDelay: nat -> string)
    requires IsOutcome(alert, rules, earlier, o, actor, formatDelay)
    ensures alert.None? <==> forall r | r in rules :: !Fires(rules, earlier, o, r)
    ensures alert.Some? ==>
              exists i :: 0 <= i < |rules| && Fires(rules, earlier, o, rules[i])
                && (forall j | 0 <= j < i :: !Fires(rules, earlier, o, rules[j]))
                && alert.value.ruleId == rules[i].id && alert.value.severity == rules[i].severity
                && alert.value.attack == rules[i].attack && alert.value.ancestry == o.facts.ancestry
  {
    hide Fires;
  }

  /** `at` lists the rules that match, in order. */
  ghost predicate MatchesAt(rules: seq<Rule>, facts: EventFacts, at: seq<nat>) {
    && (forall m | 0 <= m < |at| :: at[m] < |rules| && Matches(rules[at[m]], facts))
    && (forall m, n | 0 <= m < n < |at| :: at[m] < at[n])
    && (forall i | 0 <= i < |rules| && Matches(rules[i], facts) :: i in at)
  }

  ghost predicate AppendsHits(before: seq<Hit>, after: seq<Hit>, rules: seq<Rule>, o: Obs, at: seq<nat>)
    requires MatchesAt(rules, o.facts, at)
  {
    && |after| == |before| + |at| && after[..|before|] == before
    && forall m | 0 <= m < |at| :: after[|before| + m] == Hit(rules[at[m]].id, o.facts.path, o.now)
  }

  /** An event appends one hit for each rule that matches it to its process's history, in the order of the rules,
      with the event's path and time, and touches no other process's. */
  lemma EventIsRecorded(rules: seq<Rule>, max: nat, inputs: seq<Input>, o: Obs)
    ensures var before, after := Pruned(rules, max, inputs), Pruned(rules, max, inputs + [Observe(o)]);
            && (forall k | k != o.key :: Recall(after, k) == Recall(before, k))
            && exists at :: MatchesAt(rules, o.facts, at) && AppendsHits(Recall(before, o.key), Recall(after, o.key), rules, o, at)
  {
    PrunedStep(rules, max, inputs, Observe(o));
    HitsByIndex(rules, o);
    hide Matches, Hits, Matched, Pruned;
    var at := Matched(rules, o.facts);
    assert MatchesAt(rules, o.facts, at);
    assert AppendsHits(Recall(Pruned(rules, max, inputs), o.key), Recall(Pruned(rules, max, inputs + [Observe(o)]), o.key), rules, o, at);
  }

  // ---------------------------------------------------------------- names of processes

  /** A walk's labels come from what is recorded: the executable, or the name where there is none. */
  lemma ChainIsOfRecords(t: Table, key: ProcKey, k: ProcKey)
    requires k in t.nodes && Resolve(t, key) == Some(t.nodes[k]) && WalkEnds(t, key)
    ensures var chain, records := ChainOf(t, key), AncestryRecords(t.nodes, k);
            |chain| == |records| && forall i | 0 <= i < |chain| ::
              chain[i] == if records[i].exe != "" then records[i].exe else records[i].comm
  {
  }

  /** Which name a process goes by after its own events: the executable once one succeeded, the name it executed
      under until then, and its parent's after a fork. */
  lemma NameAfterProcExec(t: Table, key: ProcKey, exe: string)
    requires exe != ""
    ensures ActorOf(ProcExecStep(t, key, exe), key) == exe && ExeOf(ProcExecStep(t, key, exe), key) == exe
  {
    hide PromoteStep, FreshStep;
  }

  lemma NameAfterExec(t: Table, key: ProcKey, comm: string, uid: nat, argv: seq<string>)
    ensures var t' := ExecStep(t, key, comm, uid, argv);
            && (ExeOf(t', key) == "" ==> ActorOf(t', key) == comm)
            && (ExeOf(t', key) != "" ==> ActorOf(t', key) == ExeOf(t', key))
  {
    hide PromoteStep, FreshStep;
  }

  lemma NameAfterFork(t: Table, p: Tgid, c: Tgid)
    requires Indexed(t) && p in t.byTgid
    ensures ActorOf(ForkStep(t, p, c), Placeholder(c)) == ActorOf(t, t.byTgid[p])
  {
  }

  /** The facts of an event after an exec of the same process have the user and the arguments of that exec. */
  lemma FactsAfterExec(t: Table, key: ProcKey, comm: string, uid: nat, argv: seq<string>, kind: EventKind,
                       path: string, dstIp: string, dstPort: nat)
    requires WalkEnds(ExecStep(t, key, comm, uid, argv), key)
    ensures var t' := ExecStep(t, key, comm, uid, argv);
            FactsOf(t', key, kind, path, dstIp, dstPort) == EventFacts(kind, path, ChainOf(t', key), argv, uid, dstIp, dstPort)
  {
    hide PromoteStep, FreshStep;
  }

  class Engine {
    const rules: seq<Rule>
    const formatDelay: nat -> string
    var windows: seq<Option<nat>>
    var history: History
    var maxWindow: nat
    ghost var inputs: seq<Input>

    ghost predicate Valid()
      reads this
    {
      && WindowsKnown(rules)
      && |windows| == |rules| && (forall i | 0 <= i < |rules| :: windows[i] == RuleWindow(rules[i]))
      && maxWindow == MaxWindow(rules)
      && history == Pruned(rules, maxWindow, inputs)
    }

    constructor (rules: seq<Rule>, formatDelay: nat -> string)
      requires Accepted(rules)
      ensures Valid() && inputs == [] && this.rules == rules && this.formatDelay == formatDelay
    {
      this.rules := rules;
      this.formatDelay := formatDelay;
      windows := seq(|rules|, i requires 0 <= i < |rules| => RuleWindow(rules[i]));
      history := map[];
      maxWindow := MaxWindow(rules);
      inputs := [];
    }

    /** An engine for exactly the rule files that pass validation. */
    static method LoadEngine(parsed: seq<Rule>, formatDelay: nat -> string) returns (r: Result<Engine, LoadError>)
      ensures r.Ok? <==> Accepted(parsed)
      ensures r.Ok? ==> fresh(r.value) && r.value.Valid() && r.value.inputs == [] && r.value.rules == parsed
                         && r.value.formatDelay == formatDelay
    {
      var loaded := Load(parsed);
      if loaded.Err? {
        return Err(loaded.error);
      }
      var engine := new Engine(loaded.value, formatDelay);
      return Ok(engine);
    }

    /** The prior hit of a correlation. The map of processes has no fixed order, so the next one to look at
        is arbitrary, and of several youngest hits the last one seen wins. */
    method FindPrior(key: ProcKey, after: string, window: nat, sameProcess: bool, now: Time) returns (r: Option<Hit>)
      requires Valid() && Timely(inputs, now) && window <= maxWindow
      ensures IsRightPrior(r, rules, inputs, key, after, window, sameProcess, now)
    {
      if sameProcess {
        PrunedAgreesWithLog(rules, maxWindow, inputs, key, after, window, now);
        r := Latest(Recall(history, key), after, window, now);
        PriorIsRight(r, rules, inputs, key, after, window, true, now);
        return;
      }
      r := None;
      var todo := history.Keys;
      while todo != {}
        invariant todo <= history.Keys
        invariant r.None? ==> forall k | k in history.Keys - todo :: Latest(history[k], after, window, now).None?
        invariant r.Some? ==> exists k | k in history.Keys - todo :: Latest(history[k], after, window, now) == r
        invariant r.Some? ==>
                    forall k | k in history.Keys - todo && Latest(history[k], after, window, now).Some? ::
                      Latest(history[k], after, window, now).value.at <= r.value.at
        decreases |todo|
      {
        var k :| k in todo;
        var h := Latest(history[k], after, window, now);
        if h.Some? && (r.None? || h.value.at >= r.value.at) {
          r := h;
        }
        todo := todo - {k};
      }
      YoungestIsPrior(r, key, after, window, now);
      PriorIsRight(r, rules, inputs, key, after, window, false, now);
    }

    /** The youngest of the processes' latest hits in the history is a prior hit by the full log. */
    lemma YoungestIsPrior(r: Option<Hit>, key: ProcKey, after: string, window: nat, now: Time)
      requires Valid() && Timely(inputs, now) && window <= maxWindow
      requires r.None? ==> forall k | k in history :: Latest(history[k], after, window, now).None?
      requires r.Some? ==> exists k | k in history :: Latest(history[k], after, window, now) == r
      requires r.Some? ==>
                 forall k | k in history && Latest(history[k], after, window, now).Some? ::
                   Latest(history[k], after, window, now).value.at <= r.value.at
      ensures IsPrior(r, rules, inputs, key, after, window, false, now)
    {
      forall k
        ensures Latest(Recall(history, k), after, window, now) == Latest(FullLog(rules, inputs, k), after, window, now)
      {
        PrunedAgreesWithLog(rules, maxWindow, inputs, k, after, window, now);
      }
      if r.Some? {
        var k :| k in history && Latest(history[k], after, window, now) == r;
        assert Latest(FullLog(rules, inputs, k), after, window, now) == r;
      }
      forall k, h | h in FullLog(rules, inputs, k) && Qualifies(h, after, window, now)
        ensures k in history && Latest(history[k], after, window, now).Some?
        ensures h.at <= Latest(history[k], after, window, now).value.at
      {
        LogIsSorted(rules, inputs, k, now);
        LatestIsYoungest(FullLog(rules, inputs, k), after, window, now, h);
        assert Latest(Recall(history, k), after, window, now).Some?;
      }
    }

    method Chain(table: ProcTable, key: ProcKey) returns (chain: seq<string>)
      requires WalkEnds(table.View(), key)
      ensures chain == ChainOf(table.View(), key)
    {
      var nodes := table.AncestryOf(key);
      chain := Labels(nodes);
    }

    method MatchingRules(facts: EventFacts) returns (matched: seq<nat>)
      ensures matched == Matched(rules, facts)
    {
      hide Matches;
      matched := [];
      for i := 0 to |rules|
        invariant matched == Matched(rules[..i], facts)
      {
        assert rules[..i + 1][..i] == rules[..i];
        var matches := RuleMatches(rules[i], facts);
        if matches {
          matched := matched + [i];
        }
      }
      assert rules[..|rules|] == rules;
    }

    /** Picks the first matching rule whose correlation, if any, is satisfied. */
    method FirstToFire(matched: seq<nat>, ghost o: Obs, key: ProcKey, now: Time)
      returns (fired: Option<nat>, prior: Option<Hit>)
      requires Valid() && Timely(inputs, now) && o.key == key && o.now == now && matched == Matched(rules, o.facts)
      ensures IsReported(rules, inputs, o, fired)
      ensures fired.Some? ==> PriorFor(rules, inputs, o, rules[fired.value], prior)
    {
      hide Fires, Matches, IsRightPrior, WitnessAt, Pruned, IsReported, RuleWindow, PriorFor, Timely, MaxWindow;
      fired, prior := None, None;
      for j := 0 to |matched|
        invariant forall i | 0 <= i < j :: !Fires(rules, inputs, o, rules[matched[i]])
      {
        var idx := matched[j];
        var rule := rules[idx];
        prior := None;
        if rule.correlate.Some? {
          var c := rule.correlate.value;
          var window := if windows[idx].Some? then windows[idx].value else 0;
          assert rule in rules && window <= maxWindow;
          prior := FindPrior(key, c.after, window, c.sameProcess, now);
          PriorDecides(prior, rules, inputs, o, rule, window);
          if prior.None? {
            continue;
          }
        } else {
          UncorrelatedFires(rules, inputs, o, rule);
        }
        fired := Some(idx);
        FirstFires(matched, j, rules, inputs, o);
        return;
      }
      NoneFires(matched, rules, inputs, o);
      prior := None;
    }

    static lemma UncorrelatedFires(rules: seq<Rule>, inputs: seq<Input>, o: Obs, rule: Rule)
      requires Matches(rule, o.facts) && rule.correlate.None?
      ensures Fires(rules, inputs, o, rule) && PriorFor(rules, inputs, o, rule, None)
    {
    }

    /** A matching correlated rule fires exactly when the search for its prior hit succeeds. */
    static lemma PriorDecides(prior: Option<Hit>, rules: seq<Rule>, inputs: seq<Input>, o: Obs, rule: Rule, window: nat)
      requires Matches(rule, o.facts) && rule.correlate.Some? && RuleWindow(rule) == Some(window)
      requires var c := rule.correlate.value;
               IsRightPrior(prior, rules, inputs, o.key, c.after, window, c.sameProcess, o.now)
      ensures prior.Some? <==> Fires(rules, inputs, o, rule)
      ensures prior.Some? ==> PriorFor(rules, inputs, o, rule, prior)
    {
      hide IsRightPrior, WitnessAt, Matches;
      var c := rule.correlate.value;
      PriorIffWitness(prior, rules, inputs, o.key, c.after, window, c.sameProcess, o.now);
    }

    static lemma FirstFires(matched: seq<nat>, j: nat, rules: seq<Rule>, inputs: seq<Input>, o: Obs)
      requires matched == Matched(rules, o.facts) && j < |matched| && Fires(rules, inputs, o, rules[matched[j]])
      requires forall i | 0 <= i < j :: !Fires(rules, inputs, o, rules[matched[i]])
      ensures IsReported(rules, inputs, o, Some(matched[j]))
    {
      hide Holds, Matched;
      forall i | 0 <= i < matched[j]
        ensures !Fires(rules, inputs, o, rules[i])
      {
        if Matches(rules[i], o.facts) {
          var n :| 0 <= n < |matched| && matched[n] == i;
          assert n < j;
        }
      }
    }

    static lemma NoneFires(matched: seq<nat>, rules: seq<Rule>, inputs: seq<Input>, o: Obs)
      requires matched == Matched(rules, o.facts)
      requires forall i | 0 <= i < |matched| :: !Fires(rules, inputs, o, rules[matched[i]])
      ensures IsReported(rules, inputs, o, None)
    {
    }

    /** Writes one hit per matching rule into the history of `key`. */
    method AppendHits(matched: seq<nat>, ghost o: Obs, key: ProcKey, path: string, now: Time)
      requires matched == Matched(rules, o.facts)
      requires o.key == key && o.now == now && o.facts.path == path
      modifies this`history
      ensures history == Remember(old(history), key, Hits(rules, o))
    {
      hide Matches, Hits, Matched;
      HitsByIndex(rules, o);
      ghost var all := Hits(rules, o);
      var hits := if key in history then history[key] else [];
      ghost var before := hits;
      for j := 0 to |matched|
        invariant hits == before + all[..j] && history == old(history)
      {
        OneMore(before, all, j);
        hits := hits + [Hit(rules[matched[j]].id, path, now)];
      }
      assert all[..|matched|] == all;
      history := history[key := hits];
    }

    method Record(matched: seq<nat>, ghost o: Obs, key: ProcKey, path: string, now: Time)
      requires Valid() && matched == Matched(rules, o.facts)
      requires o.key == key && o.now == now && o.facts.path == path
      modifies this`history, this`inputs
      ensures Valid() && inputs == old(inputs) + [Observe(o)]
    {
      hide Pruned, Fresh, ExpireStep, Hits, Remember, MaxWindow, RuleWindow, WindowsKnown;
      AppendHits(matched, o, key, path, now);
      inputs := inputs + [Observe(o)];
      PrunedStep(rules, maxWindow, old(inputs), Observe(o));
    }

    method Evaluate(table: ProcTable, key: ProcKey, kind: EventKind, path: string, dstIp: string, dstPort: nat, now: Time)
      returns (alert: Option<Alert>)
      requires Valid() && Timely(inputs, now) && WalkEnds(table.View(), key)
      modifies this`history, this`inputs
      ensures Valid()
      ensures var o := Obs(key, FactsOf(table.View(), key, kind, path, dstIp, dstPort), now);
              && inputs == old(inputs) + [Observe(o)]
              && IsOutcome(alert, rules, old(inputs), o, ActorOf(table.View(), key), formatDelay)
    {
      var ancestry := Chain(table, key);
      var node := Resolve(table.View(), key);
      var actor := if node.Some? then Label(node.value) else "";
      var uid := if node.Some? then node.value.uid else 0;
      var argv := if node.Some? then node.value.argv else [];
      var facts := EventFacts(kind, path, ancestry, argv, uid, dstIp, dstPort);
      ghost var o := Obs(key, facts, now);
      var matched := MatchingRules(facts);
      var fired, prior := FirstToFire(matched, o, key, now);
      Record(matched, o, key, path, now);
      if fired.None? {
        return None;
      }
      var rule := rules[fired.value];
      var extra := [("actor", actor)];
      if prior.Some? {
        extra := extra + [("prior_path", prior.value.path), ("delay", formatDelay(Elapsed(now, prior.value.at)))];
      }
      assert extra == ExtraSubst(actor, Described(prior, now, formatDelay));
      var message := Render(rule, facts, extra);
      alert := Some(Alert(rule.id, rule.severity, rule.attack, message, ancestry));
      assert AlertFor(alert.value, rule, rules, old(inputs), o, actor, formatDelay);
    }

    method OnExec(table: ProcTable, key: ProcKey, path: string, now: Time) returns (alert: Option<Alert>)
      requires Valid() && Timely(inputs, now) && WalkEnds(table.View(), key)
      modifies this`history, this`inputs
      ensures Valid()
      ensures var o := Obs(key, FactsOf(table.View(), key, ExecEvent, path, "", 0), now);
              && inputs == old(inputs) + [Observe(o)]
              && IsOutcome(alert, rules, old(inputs), o, ActorOf(table.View(), key), formatDelay)
    {
      alert := Evaluate(table, key, ExecEvent, path, "", 0, now);
    }

    method OnWrite(table: ProcTable, key: ProcKey, path: string, now: Time) returns (alert: Option<Alert>)
      requires Valid() && Timely(inputs, now) && WalkEnds(table.View(), key)
      modifies this`history, this`inputs
      ensures Valid()
      ensures var o := Obs(key, FactsOf(table.View(), key, WriteEvent, path, "", 0), now);
              && inputs == old(inputs) + [Observe(o)]
              && IsOutcome(alert, rules, old(inputs), o, ActorOf(table.View(), key), formatDelay)
    {
      alert := Evaluate(table, key, WriteEvent, path, "", 0, now);
    }

    /** The path of a connection is the executable of the process that makes it. */
    method OnConnect(table: ProcTable, key: ProcKey, dstIp: string, dstPort: nat, now: Time) returns (alert: Option<Alert>)
      requires Valid() && Timely(inputs, now) && WalkEnds(table.View(), key)
      modifies this`history, this`inputs
      ensures Valid()
      ensures var t := table.View();
              var o := Obs(key, FactsOf(t, key, ConnectEvent, ExeOf(t, key), dstIp, dstPort), now);
              && inputs == old(inputs) + [Observe(o)]
              && IsOutcome(alert, rules, old(inputs), o, ActorOf(t, key), formatDelay)
    {
      var node := Resolve(table.View(), key);
      var path := if node.Some? then node.value.exe else "";
      alert := Evaluate(table, key, ConnectEvent, path, dstIp, dstPort, now);
    }

    /** Drops every hit older than `max`, and every process without hits. */
    method RetainFresh(now: Time, max: nat)
      modifies this`history
      ensures history == ExpireStep(old(history), now, max)
    {
      var todo := history.Keys;
      ghost var before := history;
      while todo != {}
        invariant todo <= history.Keys
        invariant forall k :: k in history <==> k in before && (k in todo || Fresh(before[k], now, max) != [])
        invariant forall k | k in history :: history[k] == if k in todo then before[k] else Fresh(before[k], now, max)
        decreases |todo|
      {
        var k :| k in todo;
        todo := todo - {k};
        var kept := Fresh(history[k], now, max);
        if kept == [] {
          history := history - {k};
        } else {
          history := history[k := kept];
        }
      }
    }

    method ExpireHits(now: Time)
      requires Valid()
      modifies this`history, this`inputs
      ensures Valid() && inputs == old(inputs) + [Expire(now)]
    {
      hide Pruned, Fresh, ExpireStep, Hits, Remember, MaxWindow, RuleWindow, WindowsKnown;
      RetainFresh(now, maxWindow);
      inputs := inputs + [Expire(now)];
      PrunedStep(rules, maxWindow, old(inputs), Expire(now));
    }
  }
}
