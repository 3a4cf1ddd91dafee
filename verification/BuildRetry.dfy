/** Solve, heal, retry and forget: the build handler of pkg/dind/buildkit_build.go with the
    repair of pkg/dind/buildheal.go, as concurrent requests that share one healer.

    Each solve, each ladder step, each repair and each forget is one step, so requests
    interleave anywhere between them. A solve, a prune or a rebuild succeeds or fails as the
    step says. */
module BuildRetry {
  import opened Text
  import opened Heal

  type Rid = nat

  datatype Pc =
    | New
    | Failed(msg: string)
    | Repairing(key: string, action: HealAction)
    | Repaired(key: string)
    | Forgetting(key: string)
    | Over

  /** What happened, in order. */
  datatype Event =
    | First(r: Rid, error: Option<string>)
    | Handed(r: Rid, key: string, action: HealAction)
    | Repair(r: Rid)
    | Retry(r: Rid, key: string, error: Option<string>)
    | Forgot(key: string)

  datatype State = State(seen: map<string, HealAction>, pcs: map<Rid, Pc>, log: seq<Event>)

  function PcOf(s: State, r: Rid): Pc {
    if r in s.pcs then s.pcs[r] else New
  }

  function At(s: State, r: Rid, pc: Pc, events: seq<Event>): State {
    s.(pcs := s.pcs[r := pc], log := s.log + events)
  }

  datatype Action =
    | Solve(r: Rid, error: Option<string>)
    | Heal(r: Rid)
    | Apply(r: Rid, ok: bool)
    | SolveAgain(r: Rid, noticeSent: bool, error: Option<string>)
    | Forget(r: Rid)

  /** A ladder step: over without a key, else the key's next action, and over if that is to
      give up. */
  predicate NextHeal(s: State, r: Rid, key: Option<string>, s': State) {
    if key.None? then s' == At(s, r, Over, [])
    else
      var action := NextAction(s.seen, key.value);
      s' == At(s.(seen := Remember(s.seen, key.value)), r,
               if action == HealGiveUp then Over else Repairing(key.value, action), [Handed(r, key.value, action)])
  }

  ghost predicate Next(s: State, a: Action, s': State) {
    match a
    case Solve(r, error) =>
      PcOf(s, r) == New && s' == At(s, r, if error.None? then Over else Failed(error.value), [First(r, error)])
    case Heal(r) =>
      PcOf(s, r).Failed? && NextHeal(s, r, HealKey(PcOf(s, r).msg), s')
    case Apply(r, ok) =>
      && PcOf(s, r).Repairing?
      && var Repairing(key, action) := PcOf(s, r);
      s' == if !ok then At(s, r, Over, [])
            else At(s, r, Repaired(key), if action == HealNone then [] else [Repair(r)])
    case SolveAgain(r, noticeSent, error) =>
      && PcOf(s, r).Repaired?
      && var key := PcOf(s, r).key;
      s' == if !noticeSent then At(s, r, Over, [])
            else At(s, r, if error.None? then Forgetting(key) else Over, [Retry(r, key, error)])
    case Forget(r) =>
      && PcOf(s, r).Forgetting?
      && var key := PcOf(s, r).key;
      s' == At(s.(seen := s.seen - {key}), r, Over, [Forgot(key)])
  }

  ghost predicate Init(s: State) {
    s == State(map[], map[], [])
  }

  ghost predicate Run(run: seq<State>, actions: seq<Action>) {
    && |run| == |actions| + 1 && Init(run[0])
    && forall i :: 0 <= i < |actions| ==> Next(run[i], actions[i], run[i + 1])
  }

  // ---- What the log says ----

  /** A solve of this request. */
  predicate Solving(e: Event, r: Rid) {
    (e.First? || e.Retry?) && e.r == r
  }

  /** How its solves went, in order: the error of each, if it had one. */
  function Outcomes(log: seq<Event>, r: Rid): seq<Option<string>> {
    if log == [] then []
    else
      var init, e := Outcomes(log[..|log| - 1], r), log[|log| - 1];
      if Solving(e, r) then init + [e.error] else init
  }

  function Solves(log: seq<Event>, r: Rid): nat {
    if log == [] then 0
    else
      var e := log[|log| - 1];
      Solves(log[..|log| - 1], r) + (if Solving(e, r) then 1 else 0)
  }

  function Retries(log: seq<Event>, key: string): nat {
    if log == [] then 0
    else
      var e := log[|log| - 1];
      Retries(log[..|log| - 1], key) + (if e.Retry? && e.key == key then 1 else 0)
  }

  function Forgets(log: seq<Event>, key: string): nat {
    if log == [] then 0
    else Forgets(log[..|log| - 1], key) + (if log[|log| - 1] == Forgot(key) then 1 else 0)
  }

  /** The actions handed out for `key` since it was last forgotten. */
  function SinceForget(log: seq<Event>, key: string): seq<HealAction> {
    if log == [] then []
    else
      var init, e := SinceForget(log[..|log| - 1], key), log[|log| - 1];
      if e == Forgot(key) then []
      else if e.Handed? && e.key == key then init + [e.action]
      else init
  }

  /** The prunes and rebuilds handed out for `key` so far. */
  function Granted(log: seq<Event>, key: string): nat {
    if log == [] then 0
    else
      var e := log[|log| - 1];
      Granted(log[..|log| - 1], key) + (if e.Handed? && e.key == key && e.action != HealGiveUp then 1 else 0)
  }

  // ---- Invariants ----

  /** How far up the ladder `key` is. */
  function Rung(seen: map<string, HealAction>, key: string): nat {
    if key !in seen then 0
    else match seen[key]
         case HealNone => 0
         case HealPrune => 1
         case HealRebuild => 2
         case HealGiveUp => 2
  }

  /** The healer remembers, for every key, the last action of its ladder. */
  ghost predicate OnLadder(s: State) {
    && "" !in s.seen
    && forall key :: KeyOnLadder(s.seen, s.log, key)
  }

  ghost predicate KeyOnLadder(seen: map<string, HealAction>, log: seq<Event>, key: string) {
    var handed := SinceForget(log, key);
    && (forall i :: 0 <= i < |handed| ==> handed[i] == Ladder(i))
    && (key in seen <==> handed != []) && (handed != [] ==> seen[key] == Ladder(|handed| - 1))
  }

  /** The requests that hold a repair for `key` and have not yet spent it on a retry. */
  ghost function Pending(s: State, key: string): set<Rid> {
    set r | r in s.pcs && ((s.pcs[r].Repairing? && s.pcs[r].key == key) || s.pcs[r] == Repaired(key))
  }

  /** Every retry spends a prune or rebuild, and a key has two of them between forgets. */
  ghost predicate Budgeted(s: State) {
    forall key :: KeyBudgeted(s, key)
  }

  ghost predicate KeyBudgeted(s: State, key: string) {
    && Retries(s.log, key) + |Pending(s, key)| <= Granted(s.log, key)
    && Granted(s.log, key) <= 2 * Forgets(s.log, key) + Rung(s.seen, key)
  }

  predicate SolvesFit(solves: nat, pc: Pc) {
    match pc
    case New => solves == 0
    case Forgetting(_) => solves == 2
    case Over => 1 <= solves <= 2
    case _ => solves == 1
  }

  /** A request solves once before it heals and once after, a repair stands between the
      two, and no request is ever without an action to apply. */
  ghost predicate Honest(s: State) {
    && (forall r :: SolvesFit(Solves(s.log, r), PcOf(s, r)))
    && (forall r :: r in s.pcs && s.pcs[r].Repairing? ==> s.pcs[r].action in {HealPrune, HealRebuild})
    && (forall r :: r in s.pcs && s.pcs[r].Repaired? ==> Repair(r) in s.log)
    && RetriesFollow(s.log)
  }

  lemma LogLast(log: seq<Event>, e: Event)
    ensures (log + [e])[..|log + [e]| - 1] == log && (log + [e])[|log + [e]| - 1] == e && log + [] == log
  {
  }

  lemma LadderStep(s: State, a: Action, s': State)
    requires Next(s, a, s') && OnLadder(s)
    ensures OnLadder(s')
  {
    hide HealKey;
    if |s'.log| > |s.log| {
      LogLast(s.log, s'.log[|s.log|]);
    } else {
      LogLast(s.log, First(0, None));
    }
    if a.Heal? {
      HealKeyNotEmpty(s.pcs[a.r].msg);
    }
    forall key
      ensures KeyOnLadder(s'.seen, s'.log, key)
    {
      assert KeyOnLadder(s.seen, s.log, key);
    }
  }

  /** How one request moves, and what it leaves in the log. */
  ghost predicate Moves(r: Rid, pc: Pc, events: seq<Event>, pc': Pc) {
    match pc
    case New => exists error :: events == [First(r, error)] && pc' == if error.None? then Over else Failed(error.value)
    case Failed(_) =>
      (events == [] && pc'.Over?) || (|events| == 1 && events[0].Handed? && (pc'.Repairing? || pc'.Over?))
    case Repairing(_, _) => (events == [] || events == [Repair(r)]) && (pc'.Repaired? || pc'.Over?)
    case Repaired(key) =>
      || (events == [] && pc'.Over?)
      || exists error :: events == [Retry(r, key, error)] && pc' == if error.None? then Forgetting(key) else Over
    case Forgetting(key) => events == [Forgot(key)] && pc'.Over?
    case Over => false
  }

  lemma StepMoves(s: State, a: Action, s': State) returns (pc: Pc, events: seq<Event>)
    requires Next(s, a, s')
    ensures s'.pcs == s.pcs[a.r := pc] && s'.log == s.log + events && Moves(a.r, PcOf(s, a.r), events, pc)
  {
    hide HealKey, NextAction, Remember;
    pc, events := s'.pcs[a.r], s'.log[|s.log|..];
  }

  lemma SolvesLast(log: seq<Event>, events: seq<Event>, r: Rid)
    requires |events| <= 1
    ensures Solves(log + events, r) == Solves(log, r) + (if events != [] && Solving(events[0], r) then 1 else 0)
    ensures Outcomes(log + events, r)
            == Outcomes(log, r) + (if events != [] && Solving(events[0], r) then [events[0].error] else [])
  {
    if events == [] {
      assert log + events == log;
    } else {
      LogLast(log, events[0]);
      assert events == [events[0]];
    }
  }

  lemma {:induction false} OutcomesCount(log: seq<Event>, r: Rid)
    ensures |Outcomes(log, r)| == Solves(log, r)
  {
    if log != [] {
      OutcomesCount(log[..|log| - 1], r);
    }
  }

  lemma SolvesStep(s: State, a: Action, s': State, r: Rid)
    requires Next(s, a, s') && SolvesFit(Solves(s.log, r), PcOf(s, r))
    ensures SolvesFit(Solves(s'.log, r), PcOf(s', r))
  {
    hide Next, Solves;
    var pc, events := StepMoves(s, a, s');
    SolvesLast(s.log, events, r);
  }

  /** Every retry comes after a repair of its own. */
  predicate RetriesFollow(log: seq<Event>) {
    forall j :: 0 <= j < |log| && log[j].Retry? ==> Repair(log[j].r) in log[..j]
  }

  /** Only a request that was repaired solves again. */
  lemma RetryStep(log: seq<Event>, r: Rid, pc: Pc, events: seq<Event>, pc': Pc)
    requires Moves(r, pc, events, pc') && (pc.Repaired? ==> Repair(r) in log) && RetriesFollow(log)
    ensures RetriesFollow(log + events)
  {
    var longer := log + events;
    forall j | 0 <= j < |longer| && longer[j].Retry?
      ensures Repair(longer[j].r) in longer[..j]
    {
      if j < |log| {
        assert longer[j] == log[j] && longer[..j] == log[..j];
      } else {
        assert longer[..j] == log;
      }
    }
  }

  lemma RepairedStep(s: State, a: Action, s': State, r: Rid)
    requires Next(s, a, s') && OnLadder(s) && Honest(s) && r in s'.pcs
    ensures s'.pcs[r].Repairing? ==> s'.pcs[r].action in {HealPrune, HealRebuild}
    ensures s'.pcs[r].Repaired? ==> Repair(r) in s'.log
  {
    hide HealKey, SinceForget, SolvesFit, Solves, Remember;
    if a.Heal? {
      HealKeyNotEmpty(s.pcs[a.r].msg);
    }
    assert forall e :: e in s.log ==> e in s'.log;
  }

  lemma HonestStep(s: State, a: Action, s': State)
    requires Next(s, a, s') && OnLadder(s) && Honest(s)
    ensures Honest(s')
  {
    hide Next, OnLadder, SolvesFit, Solves;
    forall r
      ensures SolvesFit(Solves(s'.log, r), PcOf(s', r))
    {
      SolvesStep(s, a, s', r);
    }
    forall r | r in s'.pcs
      ensures s'.pcs[r].Repairing? ==> s'.pcs[r].action in {HealPrune, HealRebuild}
      ensures s'.pcs[r].Repaired? ==> Repair(r) in s'.log
    {
      RepairedStep(s, a, s', r);
    }
    var pc, events := StepMoves(s, a, s');
    RetryStep(s.log, a.r, PcOf(s, a.r), events, pc);
  }

  predicate HoldsRepair(pc: Pc, key: string) {
    (pc.Repairing? && pc.key == key) || pc == Repaired(key)
  }

  /** Only the request that moves can join or leave those that hold a repair. */
  lemma PendingMoves(s: State, s': State, r: Rid, pc: Pc, key: string)
    requires s'.pcs == s.pcs[r := pc]
    ensures var was, now := r in Pending(s, key), HoldsRepair(pc, key);
            |Pending(s', key)| == |Pending(s, key)| + (if now && !was then 1 else if was && !now then -1 else 0)
  {
    var others := Pending(s, key) - {r};
    assert Pending(s', key) == if HoldsRepair(pc, key) then others + {r} else others;
    assert Pending(s, key) == if r in Pending(s, key) then others + {r} else others;
  }

  /** What one more event adds to the counts of a key. */
  lemma CountsLast(log: seq<Event>, e: Event, key: string)
    ensures Retries(log + [e], key) == Retries(log, key) + (if e.Retry? && e.key == key then 1 else 0)
    ensures Forgets(log + [e], key) == Forgets(log, key) + (if e == Forgot(key) then 1 else 0)
    ensures Granted(log + [e], key) == Granted(log, key) + (if e.Handed? && e.key == key
              && e.action != HealGiveUp then 1 else 0)
  {
    LogLast(log, e);
  }

  lemma PendingStep(s: State, s': State, r: Rid, key: string)
    requires r in s'.pcs && s'.pcs == s.pcs[r := s'.pcs[r]]
    ensures |Pending(s', key)| == |Pending(s, key)|
              + (if HoldsRepair(s'.pcs[r], key) then 1 else 0) - (if HoldsRepair(PcOf(s, r), key) then 1 else 0)
  {
    hide Pending;
    PendingMoves(s, s', r, s'.pcs[r], key);
    PendingIs(s, r, key);
  }

  /** What is handed out, short of giving up, takes the key one rung up. */
  lemma RungStep(seen: map<string, HealAction>, k: string, key: string)
    requires k != ""
    ensures NextAction(seen, k) != HealNone
    ensures Rung(Remember(seen, k), key) == Rung(seen, key) + (if k == key
              && NextAction(seen, k) != HealGiveUp then 1 else 0)
  {
  }

  /** A ladder step: what is handed out is granted, and held by the request that asked. */
  lemma BudgetHeal(s: State, r: Rid, found: Option<string>, s': State, key: string)
    requires NextHeal(s, r, found, s') && PcOf(s, r).Failed? && found != Some("") && KeyBudgeted(s, key)
    ensures KeyBudgeted(s', key)
  {
    hide Pending, Retries, Granted, Forgets, NextAction, Remember, Rung;
    PendingStep(s, s', r, key);
    if found.Some? {
      RungStep(s.seen, found.value, key);
      CountsLast(s.log, Handed(r, found.value, NextAction(s.seen, found.value)), key);
    } else {
      LogLast(s.log, First(r, None));
    }
  }

  /** A second solve spends what the request held. */
  lemma BudgetAgain(s: State, r: Rid, noticeSent: bool, error: Option<string>, s': State, key: string)
    requires Next(s, SolveAgain(r, noticeSent, error), s') && KeyBudgeted(s, key)
    ensures KeyBudgeted(s', key)
  {
    hide Pending, Retries, Granted, Forgets, Rung;
    PendingStep(s, s', r, key);
    LogLast(s.log, First(r, None));
    CountsLast(s.log, Retry(r, s.pcs[r].key, error), key);
  }

  lemma BudgetForget(s: State, r: Rid, s': State, key: string)
    requires Next(s, Forget(r), s') && KeyBudgeted(s, key)
    ensures KeyBudgeted(s', key)
  {
    hide Pending, Retries, Granted, Forgets;
    PendingStep(s, s', r, key);
    CountsLast(s.log, Forgot(s.pcs[r].key), key);
  }

  lemma BudgetRest(s: State, a: Action, s': State, key: string)
    requires Next(s, a, s') && KeyBudgeted(s, key) && (a.Solve? || a.Apply?)
    ensures KeyBudgeted(s', key)
  {
    hide Pending, Retries, Granted, Forgets, Rung;
    PendingStep(s, s', a.r, key);
    LogLast(s.log, First(a.r, None));
    if a.Solve? {
      CountsLast(s.log, First(a.r, a.error), key);
    }
    CountsLast(s.log, Repair(a.r), key);
  }

  lemma BudgetStep(s: State, a: Action, s': State, key: string)
    requires Next(s, a, s') && KeyBudgeted(s, key)
    ensures KeyBudgeted(s', key)
  {
    hide Remember, NextAction, HealKey, KeyBudgeted, NextHeal;
    match a
    case Heal(r) =>
      HealKeyNotEmpty(PcOf(s, r).msg);
      BudgetHeal(s, r, HealKey(PcOf(s, r).msg), s', key);
    case SolveAgain(r, noticeSent, error) => BudgetAgain(s, r, noticeSent, error, s', key);
    case Forget(r) => BudgetForget(s, r, s', key);
    case Solve(_, _) => BudgetRest(s, a, s', key);
    case Apply(_, _) => BudgetRest(s, a, s', key);
  }

  lemma PendingIs(s: State, r: Rid, key: string)
    ensures r in Pending(s, key) <==> HoldsRepair(PcOf(s, r), key)
  {
  }

  lemma {:induction false} RunInv(run: seq<State>, actions: seq<Action>, i: nat)
    requires Run(run, actions) && i < |run|
    ensures OnLadder(run[i]) && Honest(run[i]) && Budgeted(run[i])
  {
    if i == 0 {
      forall key
        ensures KeyBudgeted(run[0], key)
      {
        assert Pending(run[0], key) == {};
      }
    } else {
      RunInv(run, actions, i - 1);
      var s, a, s' := run[i - 1], actions[i - 1], run[i];
      assert Next(s, a, run[i - 1 + 1]);
      LadderStep(s, a, s');
      HonestStep(s, a, s');
      forall key
        ensures KeyBudgeted(s', key)
      {
        assert KeyBudgeted(s, key);
        BudgetStep(s, a, s', key);
      }
    }
  }

  /** In every interleaving, the actions handed out for a key between two forgets are the
      rungs of the ladder in order, none skipped and none repeated but the last. */
  lemma LadderHolds(run: seq<State>, actions: seq<Action>, i: nat, key: string, n: nat)
    requires Run(run, actions) && i < |run| && n < |SinceForget(run[i].log, key)|
    ensures SinceForget(run[i].log, key)[n] == Ladder(n)
  {
    RunInv(run, actions, i);
    assert KeyOnLadder(run[i].seen, run[i].log, key);
  }

  /** A request solves at most twice, and never a second time without a completed prune or
      rebuild of its own before it. */
  lemma SolvesAtMostTwice(run: seq<State>, actions: seq<Action>, i: nat, r: Rid)
    requires Run(run, actions) && i < |run|
    ensures Solves(run[i].log, r) <= 2
    ensures forall j :: 0 <= j < |run[i].log| && run[i].log[j].Retry? ==> Repair(run[i].log[j].r) in run[i].log[..j]
  {
    RunInv(run, actions, i);
    assert SolvesFit(Solves(run[i].log, r), PcOf(run[i], r));
  }

  /** However many requests fail on a key, they cause at most two extra solves for each time
      it was forgotten and two more; so at most two in all while no retry succeeds. */
  lemma RetriesBounded(run: seq<State>, actions: seq<Action>, i: nat, key: string)
    requires Run(run, actions) && i < |run|
    ensures Retries(run[i].log, key) <= 2 * (Forgets(run[i].log, key) + 1)
  {
    RunInv(run, actions, i);
    assert KeyBudgeted(run[i], key);
  }
}
