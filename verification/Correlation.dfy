/** What the engine remembers and when a rule is reported, against a log that forgets nothing. */
module Correlation {
  import opened Wrappers
  import opened Forest
  import opened Rules

  /** A remembered match of the rule `ruleId`. */
  datatype Hit = Hit(ruleId: string, path: string, at: Time)

  type History = map<ProcKey, seq<Hit>>

  datatype Obs = Obs(key: ProcKey, facts: EventFacts, now: Time)

  datatype Input = Observe(obs: Obs) | Expire(now: Time)

  function TimeOf(input: Input): Time {
    if input.Observe? then input.obs.now else input.now
  }

  /** The clock never runs backwards over the inputs and has reached `now` at their end. */
  ghost predicate Timely(inputs: seq<Input>, now: Time) {
    && (forall i, j | 0 <= i < j < |inputs| :: TimeOf(inputs[i]) <= TimeOf(inputs[j]))
    && (forall i | 0 <= i < |inputs| :: TimeOf(inputs[i]) <= now)
  }

  function Elapsed(now: Time, at: Time): nat {
    if now >= at then now - at else 0
  }

  // ---------------------------------------------------------------- rules and windows

  function RuleWindow(r: Rule): Option<nat> {
    if r.correlate.None? then None else WindowOf(r.correlate.value)
  }

  function MaxWindow(rules: seq<Rule>): (m: nat)
    ensures forall r | r in rules && RuleWindow(r).Some? :: RuleWindow(r).value <= m
    ensures m == 0 || exists r :: r in rules && RuleWindow(r) == Some(m)
  {
    if rules == [] then 0
    else
      var m, w := MaxWindow(rules[..|rules| - 1]), RuleWindow(rules[|rules| - 1]);
      if w.Some? && w.value > m then w.value else m
  }

  // ---------------------------------------------------------------- what one event adds

  function HitOf(r: Rule, o: Obs): Hit {
    Hit(r.id, o.facts.path, o.now)
  }

  /** One hit for every matching rule, in rule order. */
  ghost function Hits(rules: seq<Rule>, o: Obs): seq<Hit> {
    if rules == [] then []
    else
      var front, last := rules[..|rules| - 1], rules[|rules| - 1];
      Hits(front, o) + if Matches(last, o.facts) then [HitOf(last, o)] else []
  }

  lemma {:induction false} HitsAreMatches(rules: seq<Rule>, o: Obs, h: Hit)
    ensures h in Hits(rules, o) <==> exists r :: r in rules && Matches(r, o.facts) && h == HitOf(r, o)
  {
    if rules != [] {
      var front, last := rules[..|rules| - 1], rules[|rules| - 1];
      HitsAreMatches(front, o, h);
      assert rules == front + [last];
    }
  }

  // ---------------------------------------------------------------- the pruned history and the full log

  function Recall(h: History, key: ProcKey): seq<Hit> {
    if key in h then h[key] else []
  }

  /** The hits younger than `max`. */
  function Fresh(hits: seq<Hit>, now: Time, max: nat): seq<Hit> {
    if hits == [] then []
    else
      var front, last := hits[..|hits| - 1], hits[|hits| - 1];
      Fresh(front, now, max) + if Elapsed(now, last.at) < max then [last] else []
  }

  lemma {:induction false} FreshUnfolds(hits: seq<Hit>, now: Time, max: nat)
    requires hits != []
    ensures var front, last := hits[..|hits| - 1], hits[|hits| - 1];
            Fresh(hits, now, max) == Fresh(front, now, max) + if Elapsed(now, last.at) < max then [last] else []
  {
  }

  function ExpireStep(h: History, now: Time, max: nat): History {
    map k | k in h && Fresh(h[k], now, max) != [] :: Fresh(h[k], now, max)
  }

  function Remember(h: History, key: ProcKey, hits: seq<Hit>): History {
    h[key := Recall(h, key) + hits]
  }

  /** The history the engine keeps: every event appends its hits, every expiry prunes. */
  ghost function Pruned(rules: seq<Rule>, max: nat, inputs: seq<Input>): History {
    if inputs == [] then map[]
    else
      var before, last := Pruned(rules, max, inputs[..|inputs| - 1]), inputs[|inputs| - 1];
      match last
      case Observe(o) => Remember(before, o.key, Hits(rules, o))
      case Expire(now) => ExpireStep(before, now, max)
  }

  lemma {:induction false} PrunedStep(rules: seq<Rule>, max: nat, inputs: seq<Input>, last: Input)
    ensures Pruned(rules, max, inputs + [last])
         == match last
            case Observe(o) => Remember(Pruned(rules, max, inputs), o.key, Hits(rules, o))
            case Expire(now) => ExpireStep(Pruned(rules, max, inputs), now, max)
  {
    assert (inputs + [last])[..|inputs|] == inputs;
    hide Hits, Remember, ExpireStep;
  }

  /** All hits there ever were under `key`, in order. */
  ghost function FullLog(rules: seq<Rule>, inputs: seq<Input>, key: ProcKey): seq<Hit> {
    if inputs == [] then []
    else
      var before, last := FullLog(rules, inputs[..|inputs| - 1], key), inputs[|inputs| - 1];
      if last.Observe? && last.obs.key == key then before + Hits(rules, last.obs) else before
  }

  predicate Qualifies(h: Hit, after: string, window: nat, now: Time) {
    h.ruleId == after && Elapsed(now, h.at) < window
  }

  /** The last qualifying hit, searching backwards. */
  function Latest(hits: seq<Hit>, after: string, window: nat, now: Time): (r: Option<Hit>)
    ensures r.Some? ==> r.value in hits && Qualifies(r.value, after, window, now)
    ensures r.None? ==> forall h | h in hits :: !Qualifies(h, after, window, now)
  {
    if hits == [] then None
    else if Qualifies(hits[|hits| - 1], after, window, now) then Some(hits[|hits| - 1])
    else Latest(hits[..|hits| - 1], after, window, now)
  }

  lemma {:induction false} LatestOfConcat(a: seq<Hit>, b: seq<Hit>, after: string, window: nat, now: Time)
    ensures Latest(a + b, after, window, now)
         == if Latest(b, after, window, now).Some? then Latest(b, after, window, now) else Latest(a, after, window, now)
    decreases |b|
  {
    if b == [] {
      assert a + b == a;
    } else {
      assert (a + b)[..|a + b| - 1] == a + b[..|b| - 1];
      LatestOfConcat(a, b[..|b| - 1], after, window, now);
    }
  }

  /** Pruning at an earlier moment, by at least the window, loses nothing a later search could find. */
  lemma {:induction false} PruningIsHarmless(hits: seq<Hit>, earlier: Time, max: nat, after: string, window: nat, now: Time)
    requires earlier <= now && window <= max && forall h | h in hits :: h.at <= earlier
    ensures Latest(Fresh(hits, earlier, max), after, window, now) == Latest(hits, after, window, now)
  {
    if hits != [] {
      var front, last := hits[..|hits| - 1], hits[|hits| - 1];
      assert forall h | h in front :: h in hits;
      PruningIsHarmless(front, earlier, max, after, window, now);
      var kept := if Elapsed(earlier, last.at) < max then [last] else [];
      LatestOfConcat(Fresh(front, earlier, max), kept, after, window, now);
    }
  }

  lemma {:induction false} HitsCarryTheirTime(rules: seq<Rule>, o: Obs)
    ensures forall h | h in Hits(rules, o) :: h.at == o.now
  {
    if rules != [] {
      HitsCarryTheirTime(rules[..|rules| - 1], o);
    }
  }

  lemma {:induction false} FreshIsSubset(hits: seq<Hit>, now: Time, max: nat)
    ensures forall h | h in Fresh(hits, now, max) :: h in hits
  {
    if hits != [] {
      FreshIsSubset(hits[..|hits| - 1], now, max);
    }
  }

  /** Nothing remembered is younger than the clock. */
  lemma {:induction false} HistoryIsPast(rules: seq<Rule>, max: nat, inputs: seq<Input>, key: ProcKey, now: Time)
    requires Timely(inputs, now)
    ensures forall h | h in Recall(Pruned(rules, max, inputs), key) :: h.at <= now
  {
    if inputs != [] {
      var front, last := inputs[..|inputs| - 1], inputs[|inputs| - 1];
      HistoryIsPast(rules, max, front, key, now);
      match last
      case Observe(o) => HitsCarryTheirTime(rules, o);
      case Expire(t) => FreshIsSubset(Recall(Pruned(rules, max, front), key), t, max);
    }
  }

  /** Whatever events and expiries came before, a search in the pruned history finds what the same search
      in the full log finds, for every window up to the longest. */
  lemma {:induction false} PrunedAgreesWithLog(rules: seq<Rule>, max: nat, inputs: seq<Input>, key: ProcKey,
                                               after: string, window: nat, now: Time)
    requires Timely(inputs, now) && window <= max
    ensures Latest(Recall(Pruned(rules, max, inputs), key), after, window, now)
         == Latest(FullLog(rules, inputs, key), after, window, now)
  {
    if inputs != [] {
      var front, last := inputs[..|inputs| - 1], inputs[|inputs| - 1];
      PrunedAgreesWithLog(rules, max, front, key, after, window, now);
      var before := Recall(Pruned(rules, max, front), key);
      match last
      case Observe(o) =>
        if o.key == key {
          LatestOfConcat(before, Hits(rules, o), after, window, now);
          LatestOfConcat(FullLog(rules, front, key), Hits(rules, o), after, window, now);
        }
      case Expire(t) =>
        HistoryIsPast(rules, max, front, key, t);
        PruningIsHarmless(before, t, max, after, window, now);
    }
  }

  // ---------------------------------------------------------------- several clock readings in one search

  /** The same search with the clock read anew for every hit it looks at, as the code does. */
  function LatestByClock(hits: seq<Hit>, after: string, window: nat, clock: nat -> Time, n: nat): Option<Hit> {
    if hits == [] then None
    else if Qualifies(hits[|hits| - 1], after, window, clock(n)) then Some(hits[|hits| - 1])
    else LatestByClock(hits[..|hits| - 1], after, window, clock, n + 1)
  }

  /** Whatever the readings between the first and the last moment of the search are: what it finds qualified at the
      first, and it finds nothing only if nothing qualifies at the last. If no hit grows too old in
      between, it finds what a search with one reading finds. */
  lemma {:induction false} ClockReadingsHardlyMatter(hits: seq<Hit>, after: string, window: nat, clock: nat -> Time,
                                                     n: nat, first: Time, last: Time)
    requires forall i :: first <= clock(i) <= last
    ensures var r := LatestByClock(hits, after, window, clock, n);
            && (r.Some? ==> r.value in hits && Qualifies(r.value, after, window, first))
            && (r.None? ==> Latest(hits, after, window, last).None?)
            && ((forall h | h in hits && Qualifies(h, after, window, first) :: Qualifies(h, after, window, last)) ==>
                  r == Latest(hits, after, window, first) == Latest(hits, after, window, last))
  {
    if hits != [] {
      assert first <= clock(n) <= last;
      ClockReadingsHardlyMatter(hits[..|hits| - 1], after, window, clock, n + 1, first, last);
    }
  }

  // ---------------------------------------------------------------- the most recent hit of any process

  ghost predicate Sorted(hits: seq<Hit>) {
    forall i, j | 0 <= i < j < |hits| :: hits[i].at <= hits[j].at
  }

  lemma {:induction false} LogIsSorted(rules: seq<Rule>, inputs: seq<Input>, key: ProcKey, now: Time)
    requires Timely(inputs, now)
    ensures Sorted(FullLog(rules, inputs, key)) && forall h | h in FullLog(rules, inputs, key) :: h.at <= now
  {
    if inputs != [] {
      var front, last := inputs[..|inputs| - 1], inputs[|inputs| - 1];
      LogIsSorted(rules, front, key, TimeOf(last));
      if last.Observe? && last.obs.key == key {
        HitsCarryTheirTime(rules, last.obs);
      }
    }
  }

  lemma {:induction false} LatestIsYoungest(hits: seq<Hit>, after: string, window: nat, now: Time, h: Hit)
    requires Sorted(hits) && h in hits && Qualifies(h, after, window, now)
    ensures Latest(hits, after, window, now).Some? && h.at <= Latest(hits, after, window, now).value.at
  {
    var front, last := hits[..|hits| - 1], hits[|hits| - 1];
    if Qualifies(last, after, window, now) {
      var i :| 0 <= i < |hits| && hits[i] == h;
    } else {
      assert h in front;
      LatestIsYoungest(front, after, window, now, h);
    }
  }

  /** `r` is what the full log has to say about a prior hit: the process's latest qualifying hit, or, across
      processes, one than which no qualifying hit is younger; ties are free. */
  ghost predicate IsPrior(r: Option<Hit>, rules: seq<Rule>, inputs: seq<Input>, key: ProcKey, after: string,
                          window: nat, sameProcess: bool, now: Time)
  {
    if sameProcess then r == Latest(FullLog(rules, inputs, key), after, window, now)
    else if r.None? then
      forall k :: Latest(FullLog(rules, inputs, k), after, window, now).None?
    else
      && (exists k :: Latest(FullLog(rules, inputs, k), after, window, now) == r)
      && (forall k, h | h in FullLog(rules, inputs, k) && Qualifies(h, after, window, now) :: h.at <= r.value.at)
  }

  // ---------------------------------------------------------------- when a rule is reported

  /** The earlier event `e` is what a correlation asks for at `now`: a rule `after` matched it, it is less than the
      window ago, and it is the same process's if so asked. */
  ghost predicate Witnesses(rules: seq<Rule>, e: Obs, after: string, window: nat, sameProcess: bool, key: ProcKey, now: Time)
  {
    && (exists r :: r in rules && r.id == after && Matches(r, e.facts))
    && now < e.now + window
    && (sameProcess ==> e.key == key)
  }

  ghost predicate WitnessAt(rules: seq<Rule>, earlier: seq<Input>, i: nat, after: string, window: nat, sameProcess: bool,
                            key: ProcKey, now: Time)
  {
    i < |earlier| && earlier[i].Observe? && Witnesses(rules, earlier[i].obs, after, window, sameProcess, key, now)
  }

  /** `r` is what has to be found: the hit of the same process's last witnessing event, or of one than which no
      witnessing event of any process is younger; and nothing if there is no witness. */
  ghost predicate IsRightPrior(r: Option<Hit>, rules: seq<Rule>, earlier: seq<Input>, key: ProcKey, after: string,
                               window: nat, sameProcess: bool, now: Time)
  {
    match r
    case None => forall i :: !WitnessAt(rules, earlier, i, after, window, sameProcess, key, now)
    case Some(h) => exists i :: IsPriorAt(h, rules, earlier, i, key, after, window, sameProcess, now)
  }

  ghost predicate IsPriorAt(h: Hit, rules: seq<Rule>, earlier: seq<Input>, i: nat, key: ProcKey, after: string,
                            window: nat, sameProcess: bool, now: Time)
  {
    && WitnessAt(rules, earlier, i, after, window, sameProcess, key, now)
    && h == Hit(after, earlier[i].obs.facts.path, earlier[i].obs.now)
    && forall j: nat | WitnessAt(rules, earlier, j, after, window, sameProcess, key, now) ::
         if sameProcess then j <= i else earlier[j].obs.now <= earlier[i].obs.now
  }

  /** The rule matches the event and its correlation, if it has one, is witnessed by an earlier event. */
  ghost predicate Fires(rules: seq<Rule>, earlier: seq<Input>, o: Obs, r: Rule) {
    && Matches(r, o.facts)
    && (r.correlate.Some? ==>
          && RuleWindow(r).Some?
          && var c := r.correlate.value;
             exists i :: WitnessAt(rules, earlier, i, c.after, RuleWindow(r).value, c.sameProcess, o.key, o.now))
  }

  /** The first rule in order that fires. */
  ghost predicate IsReported(rules: seq<Rule>, earlier: seq<Input>, o: Obs, report: Option<nat>) {
    match report
    case None => forall r | r in rules :: !Fires(rules, earlier, o, r)
    case Some(i) => i < |rules| && Fires(rules, earlier, o, rules[i]) && forall j | 0 <= j < i :: !Fires(rules, earlier, o, rules[j])
  }

  lemma {:induction false} LogMembers(rules: seq<Rule>, inputs: seq<Input>, key: ProcKey, h: Hit)
    ensures h in FullLog(rules, inputs, key) <==>
            exists i :: 0 <= i < |inputs| && inputs[i].Observe? && inputs[i].obs.key == key && h in Hits(rules, inputs[i].obs)
  {
    hide Hits;
    if inputs != [] {
      var front, last := inputs[..|inputs| - 1], inputs[|inputs| - 1];
      LogMembers(rules, front, key, h);
      if last.Observe? && last.obs.key == key && h in Hits(rules, last.obs) {
        assert inputs[|inputs| - 1] == last;
      }
      if i :| 0 <= i < |front| && front[i].Observe? && front[i].obs.key == key && h in Hits(rules, front[i].obs) {
        assert inputs[i] == front[i];
      }
    }
  }

  /** A search in what one event recorded finds it exactly if the event is a witness. */
  lemma LatestOfHits(rules: seq<Rule>, o: Obs, after: string, window: nat, now: Time)
    requires o.now <= now
    ensures var r := Latest(Hits(rules, o), after, window, now);
            && (r.Some? <==> Witnesses(rules, o, after, window, true, o.key, now))
            && (r.Some? ==> r.value == Hit(after, o.facts.path, o.now))
  {
    var r := Latest(Hits(rules, o), after, window, now);
    if r.Some? { HitsAreMatches(rules, o, r.value); }
    if Witnesses(rules, o, after, window, true, o.key, now) {
      var rule :| rule in rules && rule.id == after && Matches(rule, o.facts);
      HitsAreMatches(rules, o, HitOf(rule, o));
      assert Qualifies(HitOf(rule, o), after, window, now);
    }
  }

  lemma {:induction false} OneMoreInput(rules: seq<Rule>, front: seq<Input>, last: Input, after: string, window: nat,
                                        key: ProcKey, now: Time, r: Option<Hit>)
    requires IsRightPrior(r, rules, front, key, after, window, true, now)
    ensures var n := |front|;
            if WitnessAt(rules, front + [last], n, after, window, true, key, now)
            then IsRightPrior(Some(Hit(after, last.obs.facts.path, last.obs.now)), rules, front + [last], key, after, window, true, now)
            else IsRightPrior(r, rules, front + [last], key, after, window, true, now)
  {
    hide Witnesses;
    var inputs, n := front + [last], |front|;
    assert forall i: nat | i < n :: WitnessAt(rules, inputs, i, after, window, true, key, now)
                               <==> WitnessAt(rules, front, i, after, window, true, key, now);
    if WitnessAt(rules, inputs, n, after, window, true, key, now) {
      assert IsPriorAt(Hit(after, last.obs.facts.path, last.obs.now), rules, inputs, n, key, after, window, true, now);
    } else if r.Some? {
      var i: nat :| IsPriorAt(r.value, rules, front, i, key, after, window, true, now);
      assert IsPriorAt(r.value, rules, inputs, i, key, after, window, true, now);
    }
  }

  /** A search in one process's log finds its last witnessing event. */
  lemma {:induction false} LatestIsLastWitness(rules: seq<Rule>, inputs: seq<Input>, key: ProcKey, after: string,
                                               window: nat, now: Time)
    requires Timely(inputs, now)
    ensures IsRightPrior(Latest(FullLog(rules, inputs, key), after, window, now), rules, inputs, key, after, window, true, now)
  {
    if inputs != [] {
      hide Witnesses, IsRightPrior, Hits, Latest;
      var front, last := inputs[..|inputs| - 1], inputs[|inputs| - 1];
      assert inputs == front + [last];
      LatestIsLastWitness(rules, front, key, after, window, now);
      OneMoreInput(rules, front, last, after, window, key, now, Latest(FullLog(rules, front, key), after, window, now));
      if last.Observe? && last.obs.key == key {
        assert TimeOf(inputs[|inputs| - 1]) <= now;
        LatestOfHits(rules, last.obs, after, window, now);
        LatestOfConcat(FullLog(rules, front, key), Hits(rules, last.obs), after, window, now);
      } else {
        OthersWitnessNothing(rules, inputs, key, after, window, now);
      }
    }
  }

  lemma OthersWitnessNothing(rules: seq<Rule>, inputs: seq<Input>, key: ProcKey, after: string, window: nat, now: Time)
    requires inputs != [] && !(inputs[|inputs| - 1].Observe? && inputs[|inputs| - 1].obs.key == key)
    ensures !WitnessAt(rules, inputs, |inputs| - 1, after, window, true, key, now)
  {
  }

  /** Every witnessing event left a hit in its own process's log, of its own time. */
  lemma WitnessIsLogged(rules: seq<Rule>, inputs: seq<Input>, j: nat, after: string, window: nat, key: ProcKey, now: Time)
    requires Timely(inputs, now) && WitnessAt(rules, inputs, j, after, window, false, key, now)
    ensures var e := inputs[j].obs;
            var h := Hit(after, e.facts.path, e.now);
            h in FullLog(rules, inputs, e.key) && Qualifies(h, after, window, now)
  {
    var e := inputs[j].obs;
    assert TimeOf(inputs[j]) <= now;
    var rule :| rule in rules && rule.id == after && Matches(rule, e.facts);
    HitsAreMatches(rules, e, HitOf(rule, e));
    LogMembers(rules, inputs, e.key, HitOf(rule, e));
  }

  /** What the full log has to say about a prior hit is what has to be found. */
  lemma PriorIsRight(r: Option<Hit>, rules: seq<Rule>, inputs: seq<Input>, key: ProcKey, after: string, window: nat,
                     sameProcess: bool, now: Time)
    requires Timely(inputs, now) && IsPrior(r, rules, inputs, key, after, window, sameProcess, now)
    ensures IsRightPrior(r, rules, inputs, key, after, window, sameProcess, now)
  {
    LatestIsLastWitness(rules, inputs, key, after, window, now);
    if !sameProcess {
      hide Witnesses, Timely, FullLog, Latest;
      if r.None? {
        forall j ensures !WitnessAt(rules, inputs, j, after, window, false, key, now) {
          if WitnessAt(rules, inputs, j, after, window, false, key, now) {
            WitnessIsLogged(rules, inputs, j, after, window, key, now);
          }
        }
      } else {
        var k :| Latest(FullLog(rules, inputs, k), after, window, now) == r;
        LatestIsLastWitness(rules, inputs, k, after, window, now);
        var i: nat :| IsPriorAt(r.value, rules, inputs, i, k, after, window, true, now);
        SameWitnessForAny(rules, inputs, i, after, window, k, key, now);
        forall j: nat | WitnessAt(rules, inputs, j, after, window, false, key, now)
          ensures inputs[j].obs.now <= inputs[i].obs.now
        {
          WitnessIsLogged(rules, inputs, j, after, window, key, now);
        }
        assert IsPriorAt(r.value, rules, inputs, i, key, after, window, false, now);
      }
    }
  }

  lemma SameWitnessForAny(rules: seq<Rule>, inputs: seq<Input>, i: nat, after: string, window: nat, k: ProcKey,
                          key: ProcKey, now: Time)
    requires WitnessAt(rules, inputs, i, after, window, true, k, now)
    ensures WitnessAt(rules, inputs, i, after, window, false, key, now)
  {
  }

  /** A search that finds what has to be found succeeds exactly when an earlier event witnesses the correlation. */
  lemma PriorIffWitness(r: Option<Hit>, rules: seq<Rule>, inputs: seq<Input>, key: ProcKey, after: string, window: nat,
                        sameProcess: bool, now: Time)
    requires IsRightPrior(r, rules, inputs, key, after, window, sameProcess, now)
    ensures r.Some? <==> exists i :: WitnessAt(rules, inputs, i, after, window, sameProcess, key, now)
  {
  }

  // ---------------------------------------------------------------- what an expiry keeps

  lemma {:induction false} NothingFresh(hits: seq<Hit>, now: Time, max: nat)
    requires forall i | 0 <= i < |hits| :: hits[i].at + max <= now
    ensures Fresh(hits, now, max) == []
  {
    if hits != [] { NothingFresh(hits[..|hits| - 1], now, max); }
  }

  /** The first `n` hits are as old as `max` or older, the rest are younger. */
  ghost predicate AgedAt(hits: seq<Hit>, now: Time, max: nat, n: nat) {
    && n <= |hits|
    && (forall i | 0 <= i < n :: hits[i].at + max <= now)
    && (forall i | n <= i < |hits| :: now < hits[i].at + max)
  }

  lemma AgedGrows(hits: seq<Hit>, now: Time, max: nat, n: nat)
    requires hits != [] && AgedAt(hits[..|hits| - 1], now, max, n) && now < hits[|hits| - 1].at + max
    ensures AgedAt(hits, now, max, n) && hits[n..] == hits[..|hits| - 1][n..] + [hits[|hits| - 1]]
  {
  }

  lemma {:induction false} FreshOfSorted(hits: seq<Hit>, now: Time, max: nat) returns (n: nat)
    requires Sorted(hits) && forall i | 0 <= i < |hits| :: hits[i].at <= now
    ensures AgedAt(hits, now, max, n) && Fresh(hits, now, max) == hits[n..]
  {
    if hits == [] {
      n := 0;
    } else if hits[|hits| - 1].at + max <= now {
      NothingFresh(hits, now, max);
      n := |hits|;
    } else {
      FreshUnfolds(hits, now, max);
      hide Fresh, AgedAt;
      n := FreshOfSorted(hits[..|hits| - 1], now, max);
      AgedGrows(hits, now, max, n);
    }
  }

  lemma {:induction false} HistoryIsSorted(rules: seq<Rule>, max: nat, inputs: seq<Input>, key: ProcKey, now: Time)
    requires Timely(inputs, now)
    ensures Sorted(Recall(Pruned(rules, max, inputs), key))
    ensures forall h | h in Recall(Pruned(rules, max, inputs), key) :: h.at <= now
  {
    HistoryIsPast(rules, max, inputs, key, now);
    if inputs != [] {
      var front, last := inputs[..|inputs| - 1], inputs[|inputs| - 1];
      HistoryIsSorted(rules, max, front, key, TimeOf(last));
      match last
      case Observe(o) => HitsCarryTheirTime(rules, o);
      case Expire(t) => var n := FreshOfSorted(Recall(Pruned(rules, max, front), key), t, max);
    }
  }

  /** An expiry cuts off the oldest hits of every process: exactly those whose time plus the longest window has
      come. Processes without hits are forgotten. */
  lemma ExpiryDropsTheOld(rules: seq<Rule>, max: nat, inputs: seq<Input>, key: ProcKey, now: Time) returns (n: nat)
    requires Timely(inputs, now)
    ensures var before, after := Recall(Pruned(rules, max, inputs), key), Pruned(rules, max, inputs + [Expire(now)]);
            && AgedAt(before, now, max, n) && Recall(after, key) == before[n..]
            && (key in after <==> n < |before|)
  {
    PrunedStep(rules, max, inputs, Expire(now));
    HistoryIsSorted(rules, max, inputs, key, now);
    n := FreshOfSorted(Recall(Pruned(rules, max, inputs), key), now, max);
  }

  // ---------------------------------------------------------------- rule order

  lemma {:induction false} HitsOfConcat(a: seq<Rule>, b: seq<Rule>, o: Obs)
    ensures Hits(a + b, o) == Hits(a, o) + Hits(b, o)
    decreases |b|
  {
    if b == [] {
      assert a + b == a;
    } else {
      assert (a + b)[..|a + b| - 1] == a + b[..|b| - 1];
      HitsOfConcat(a, b[..|b| - 1], o);
    }
  }

  /** Rule lists that are permutations of each other record the same hits for an event, up to order. */
  lemma {:induction false} HitsIgnoreOrder(a: seq<Rule>, b: seq<Rule>, o: Obs)
    requires multiset(a) == multiset(b)
    ensures multiset(Hits(a, o)) == multiset(Hits(b, o))
    decreases |a|
  {
    assert |a| == |multiset(a)| == |multiset(b)| == |b|;
    if a != [] {
      var front, last := a[..|a| - 1], a[|a| - 1];
      assert a == front + [last];
      assert last in multiset(a);
      var i :| 0 <= i < |b| && b[i] == last;
      var rest := b[..i] + b[i + 1..];
      assert b == b[..i] + ([last] + b[i + 1..]);
      assert multiset(b) == multiset(b[..i]) + (multiset{last} + multiset(b[i + 1..]));
      assert multiset(a) == multiset(front) + multiset{last};
      assert multiset(rest) == multiset(b) - multiset{last};
      assert multiset(front) == multiset(a) - multiset{last};
      HitsIgnoreOrder(front, rest, o);
      HitsOfConcat(b[..i], b[i + 1..], o);
      HitsOfConcat(b[..i], [last] + b[i + 1..], o);
      HitsOfConcat([last], b[i + 1..], o);
      HitsOfConcat(front, [last], o);
    }
  }

  lemma {:induction false} FreshIgnoresOrder(a: seq<Hit>, now: Time, max: nat, h: Hit)
    ensures multiset(Fresh(a, now, max))[h] == if Elapsed(now, h.at) < max then multiset(a)[h] else 0
  {
    if a != [] {
      var front, last := a[..|a| - 1], a[|a| - 1];
      FreshIgnoresOrder(front, now, max, h);
      FreshUnfolds(a, now, max);
      hide Fresh, Elapsed;
      assert a == front + [last];
      assert multiset(a) == multiset(front) + multiset{last};
      var kept := if Elapsed(now, last.at) < max then [last] else [];
      assert multiset(Fresh(a, now, max)) == multiset(Fresh(front, now, max)) + multiset(kept);
    }
  }

  lemma SameMembers(a: seq<Rule>, b: seq<Rule>)
    requires multiset(a) == multiset(b)
    ensures forall r :: r in a <==> r in b
  {
    assert forall r :: r in a <==> r in multiset(a);
  }

  lemma MaxWindowIgnoresOrder(a: seq<Rule>, b: seq<Rule>)
    requires multiset(a) == multiset(b)
    ensures MaxWindow(a) == MaxWindow(b)
  {
    SameMembers(a, b);
  }

  lemma {:induction false} HistoryIgnoresOrder(a: seq<Rule>, b: seq<Rule>, max: nat, inputs: seq<Input>, key: ProcKey)
    requires multiset(a) == multiset(b)
    ensures multiset(Recall(Pruned(a, max, inputs), key)) == multiset(Recall(Pruned(b, max, inputs), key))
  {
    if inputs != [] {
      var front, last := inputs[..|inputs| - 1], inputs[|inputs| - 1];
      HistoryIgnoresOrder(a, b, max, front, key);
      var x, y := Recall(Pruned(a, max, front), key), Recall(Pruned(b, max, front), key);
      match last
      case Observe(o) => HitsIgnoreOrder(a, b, o);
      case Expire(t) =>
        forall h
          ensures multiset(Fresh(x, t, max))[h] == multiset(Fresh(y, t, max))[h]
        {
          FreshIgnoresOrder(x, t, max, h);
          FreshIgnoresOrder(y, t, max, h);
        }
        assert multiset(Fresh(x, t, max)) == multiset(Fresh(y, t, max));
    }
  }

  /** The order of the rules decides what is reported, not what is remembered and not which rules fire:
      the histories hold the same hits and the same rules fire at every event of every run. */
  lemma RuleOrderGovernsReports(a: seq<Rule>, b: seq<Rule>, inputs: seq<Input>, key: ProcKey, o: Obs, r: Rule)
    requires multiset(a) == multiset(b)
    ensures multiset(Hits(a, o)) == multiset(Hits(b, o))
    ensures multiset(Recall(Pruned(a, MaxWindow(a), inputs), key)) == multiset(Recall(Pruned(b, MaxWindow(b), inputs), key))
    ensures (r in a && Fires(a, inputs, o, r)) <==> (r in b && Fires(b, inputs, o, r))
    ensures IsReported(a, inputs, o, None) <==> IsReported(b, inputs, o, None)
  {
    HitsIgnoreOrder(a, b, o);
    MaxWindowIgnoresOrder(a, b);
    HistoryIgnoresOrder(a, b, MaxWindow(a), inputs, key);
    SameMembers(a, b);
    forall x ensures Fires(a, inputs, o, x) <==> Fires(b, inputs, o, x) {
      if Fires(a, inputs, o, x) { FiresIgnoresOrder(a, b, inputs, o, x); }
      if Fires(b, inputs, o, x) { FiresIgnoresOrder(b, a, inputs, o, x); }
    }
  }

  lemma FiresIgnoresOrder(a: seq<Rule>, b: seq<Rule>, inputs: seq<Input>, o: Obs, r: Rule)
    requires (forall x :: x in a <==> x in b) && Fires(a, inputs, o, r)
    ensures Fires(b, inputs, o, r)
  {
    if r.correlate.Some? {
      var c, w := r.correlate.value, RuleWindow(r).value;
      var i: nat :| WitnessAt(a, inputs, i, c.after, w, c.sameProcess, o.key, o.now);
      assert WitnessAt(b, inputs, i, c.after, w, c.sameProcess, o.key, o.now);
    }
  }
}
