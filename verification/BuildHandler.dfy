/** The build handler as the code it is (the solve, heal, retry and forget sequence of
    pkg/dind/buildkit_build.go, and pkg/dind/buildheal.go), and its place in the system of
    requests: every call is a stretch of a run of BuildRetry. */
module BuildHandler {
  import opened Text
  import opened Heal
  import opened BuildRetry

  /** What a repair does, in order: it looks whether the context is canceled, prunes, rebuilds. */
  datatype StoreEvent = Looked(canceled: bool) | Pruned(ok: bool) | Rebuilt(ok: bool)

  /** The shared build store, and what was done to it. */
  class Store {
    var log: seq<StoreEvent>

    constructor ()
      ensures log == []
    {
      log := [];
    }

    method Canceled() returns (canceled: bool)
      modifies this
      ensures log == old(log) + [Looked(canceled)]
    {
      canceled := *;
      log := log + [Looked(canceled)];
    }

    method PruneAll() returns (ok: bool)
      modifies this
      ensures log == old(log) + [Pruned(ok)]
    {
      ok := *;
      log := log + [Pruned(ok)];
    }

    method Rebuild() returns (ok: bool)
      modifies this
      ensures log == old(log) + [Rebuilt(ok)]
    {
      ok := *;
      log := log + [Rebuilt(ok)];
    }
  }

  /** BuildKit, and how each solve it was asked for went: the message of its error, if it had one. */
  class BuildKit {
    var outcomes: seq<Option<string>>

    constructor ()
      ensures outcomes == []
    {
      outcomes := [];
    }

    method RunSolve() returns (error: Option<string>)
      modifies this
      ensures outcomes == old(outcomes) + [error]
    {
      var fails: bool, msg: string := *, *;
      error := if fails then Some(msg) else None;
      outcomes := outcomes + [error];
    }
  }

  predicate Touches(e: StoreEvent) {
    e.Pruned? || e.Rebuilt?
  }

  /** A prune or a rebuild was completed. */
  predicate Mends(events: seq<StoreEvent>) {
    Pruned(true) in events || Rebuilt(true) in events
  }

  /** The store is only touched right after the context was seen alive, nothing follows the
      sight of a canceled one, and nothing follows a success. */
  predicate Careful(events: seq<StoreEvent>) {
    && (forall i :: 0 <= i < |events| && Touches(events[i]) ==> i > 0 && events[i - 1] == Looked(false))
    && (forall i :: 0 <= i < |events| && events[i] in {Looked(true), Pruned(true), Rebuilt(true)} ==> i == |events| - 1)
  }

  /** What can keep a repair from being completed. */
  predicate Excused(events: seq<StoreEvent>) {
    Looked(true) in events || Rebuilt(false) in events
  }

  /** A rebuild is the repair asked for or follows a failed prune. */
  predicate Escalates(action: HealAction, events: seq<StoreEvent>) {
    match action
    case HealPrune => forall i :: 0 <= i < |events| && events[i].Rebuilt? ==> Pruned(false) in events[..i]
    case HealRebuild => forall e :: e in events ==> !e.Pruned?
    case _ => forall e :: e in events ==> !Touches(e)
  }

  class Server {
    const healer: Healer
    const store: Store
    const bk: BuildKit
    /** The run of the system that led here. */
    ghost var run: seq<State>
    ghost var actions: seq<Action>
    ghost var now: State

    constructor (healer: Healer, store: Store, bk: BuildKit)
      requires healer.seen == map[]
      ensures Valid() && this.healer == healer && this.store == store && this.bk == bk
      ensures now == State(map[], map[], [])
    {
      this.healer, this.store, this.bk := healer, store, bk;
      now, actions := State(map[], map[], []), [];
      run := [State(map[], map[], [])];
    }

    /** `now` is the last state of a run. */
    ghost predicate Recorded()
      reads this`run, this`actions, this`now
    {
      Run(run, actions) && run[|run| - 1] == now
    }

    /** The healer remembers what it does in the last state. */
    ghost predicate Valid()
      reads this, healer
    {
      Recorded() && healer.seen == now.seen
    }

    twostate predicate Extends()
      reads this`run, this`actions
    {
      old(run) <= run && old(actions) <= actions
    }

    ghost method Take(a: Action, s: State)
      requires Recorded() && Next(now, a, s)
      modifies this`run, this`actions, this`now
      ensures Recorded() && Extends() && now == s
    {
      run, actions, now := run + [s], actions + [a], s;
    }

    /** What was done to the store since its log was `before`. */
    ghost function Since(before: seq<StoreEvent>): seq<StoreEvent>
      requires before <= store.log
      reads store
    {
      store.log[|before|..]
    }

    /** applyHealAction: one rung of the ladder, a failed prune escalating to a rebuild. It
        reports a repair exactly if it completed one, and touches nothing once it has seen the
        context canceled. */
    method ApplyHealAction(action: HealAction) returns (repaired: bool)
      modifies store
      ensures old(store.log) <= store.log
      ensures action.HealPrune? || action.HealRebuild? ==> (repaired <==> Mends(Since(old(store.log))))
      ensures Careful(Since(old(store.log))) && Escalates(action, Since(old(store.log)))
      ensures (action.HealPrune? || action.HealRebuild?) && !repaired ==> Excused(Since(old(store.log)))
      ensures action.HealPrune? && Rebuilt(false) in Since(old(store.log)) ==> Pruned(false) in Since(old(store.log))
    {
      ghost var before := store.log;
      var canceled := store.Canceled();
      assert Since(before) == [Looked(canceled)];
      if canceled { return false; }
      match action {
        case HealPrune =>
          var pruned := store.PruneAll();
          assert Since(before) == [Looked(false), Pruned(pruned)];
          if !pruned {
            canceled := store.Canceled();
            assert Since(before) == [Looked(false), Pruned(false), Looked(canceled)];
            if canceled { return false; }
            var rebuilt := store.Rebuild();
            assert Since(before) == [Looked(false), Pruned(false), Looked(false), Rebuilt(rebuilt)];
            assert Since(before)[..3][1] == Pruned(false);
            if !rebuilt { return false; }
          }
        case HealRebuild =>
          var rebuilt := store.Rebuild();
          assert Since(before) == [Looked(false), Rebuilt(rebuilt)];
          if !rebuilt { return false; }
        case HealNone =>
        case HealGiveUp =>
      }
      repaired := true;
    }

    /** healAndRetryBuild: whether the build that failed with `msg` is worth a second try. It
        is exactly if the store was mended for it, and it was unless the failure has no key,
        the key is given up on, the context was canceled or a rebuild failed. */
    method HealAndRetryBuild(r: Rid, msg: string) returns (retry: bool)
      requires Valid() && PcOf(now, r) == Failed(msg)
      modifies this`run, this`actions, this`now, healer, store
      ensures Valid() && Extends() && old(store.log) <= store.log
      ensures retry <==> Mends(Since(old(store.log)))
      ensures !retry ==> Hopeless(old(healer.seen), msg) || Excused(Since(old(store.log)))
      ensures Hopeless(old(healer.seen), msg) ==> store.log == old(store.log)
      ensures HealKey(msg).Some? ==> Escalates(NextAction(old(healer.seen), HealKey(msg).value), Since(old(store.log)))
      ensures retry ==> HealKey(msg).Some? && PcOf(now, r) == Repaired(HealKey(msg).value)
      ensures !retry ==> PcOf(now, r) == Over
      ensures old(now).log <= now.log && forall e :: e in now.log[|old(now).log|..] ==> e.Handed? || e.Repair?
      ensures Outcomes(now.log, r) == Outcomes(old(now).log, r)
    {
      hide Recorded, HealKey, Remember, Outcomes, Careful;
      ghost var log := now.log;
      Uncounted(log, r);
      var key := HealKey(msg);
      if key.None? {
        Take(Action.Heal(r), At(now, r, Over, []));
        return false;
      }
      HealKeyNotEmpty(msg);
      var action := healer.NextId(key.value);
      ghost var handed := Handed(r, key.value, action);
      if action == HealGiveUp {
        Take(Action.Heal(r), At(now.(seen := healer.seen), r, Over, [handed]));
        return false;
      }
      assert action.HealPrune? || action.HealRebuild?;
      Take(Action.Heal(r), At(now.(seen := healer.seen), r, Repairing(key.value, action), [handed]));
      Uncounted(log + [handed], r);
      retry := ApplyHealAction(action);
      ghost var mended := if retry then [Repair(r)] else [];
      Take(Apply(r, retry), At(now, r, if retry then Repaired(key.value) else Over, mended));
      assert now.log[|log|..] == [handed] + mended;
    }

    /** No repair is due: the failure has no key, or its ladder is at an end. */
    predicate Hopeless(seen: map<string, HealAction>, msg: string) {
      var key := HealKey(msg);
      key.None? || NextAction(seen, key.value) == HealGiveUp
    }

    /** The handler: solve; after a failure that can be repaired, repair and solve once more;
        after a success then, forget the key. The error it ends with is that of the last solve.
        It solves again exactly if the store was mended and the client could be told so. */
    method Build(r: Rid, clientThere: bool) returns (error: Option<string>)
      requires Valid() && PcOf(now, r) == New
      modifies this`run, this`actions, this`now, healer, store, bk
      ensures Valid() && Extends() && PcOf(now, r) == Over && old(store.log) <= store.log
      ensures bk.outcomes == old(bk.outcomes) + Outcomes(now.log, r)
      ensures 1 <= |Outcomes(now.log, r)| == Solves(now.log, r) <= 2
      ensures error == Outcomes(now.log, r)[Solves(now.log, r) - 1]
      ensures Solves(now.log, r) == 2 <==> clientThere && Mends(Since(old(store.log)))
      ensures Mends(Since(old(store.log))) ==> Outcomes(now.log, r)[0].Some?
      ensures Outcomes(now.log, r)[0].Some? && !Mends(Since(old(store.log))) ==>
                Hopeless(old(healer.seen), Outcomes(now.log, r)[0].value) || Excused(Since(old(store.log)))
      ensures Drops(old(now).log, now.log,
                      if Solves(now.log, r) == 2 && error.None? then HealKey(Outcomes(now.log, r)[0].value) else None)
      ensures Solves(now.log, r) == 2 && error.None? ==>
                forall key :: HealKey(Outcomes(now.log, r)[0].value) == Some(key) ==> key !in healer.seen
      ensures forall j :: 0 <= j < |now.log| && now.log[j].Retry? ==> Repair(now.log[j].r) in now.log[..j]
    {
      hide Recorded, HealKey, Outcomes, Solves, Next, Mends, Excused, Hopeless, Since, Drops;
      ghost var log := now.log;
      NotYet(r);
      error := bk.RunSolve();
      FirstSolve(r, error);
      ghost var first, log1 := error, now.log;
      if error.None? {
        assert Since(store.log) == [] by { SinceNow(); }
        NothingMends();
        DropsNone(log, log1, [First(r, error)]);
        Facts(r);
        return;
      }
      var key := HealKey(error.value);
      var retry := HealAndRetryBuild(r, error.value);
      ghost var log2 := now.log;
      assert log2 == log + ([First(r, first)] + log2[|log1|..]);
      DropsNone(log, log2, [First(r, first)] + log2[|log1|..]);
      if retry && clientThere {
        error := SolveOnceMore(r, key.value);
        DropsMore(log, log2, now.log, Retry(r, key.value, error), if error.None? then key else None);
      } else if retry {
        SecondSolve(r, false, None);
      }
      Facts(r);
    }

    /** The second half: solve again, and after a success forget the key. */
    method SolveOnceMore(r: Rid, key: string) returns (error: Option<string>)
      requires Valid() && PcOf(now, r) == Repaired(key)
      modifies this`run, this`actions, this`now, healer, bk
      ensures Valid() && Extends() && PcOf(now, r) == Over
      ensures bk.outcomes == old(bk.outcomes) + [error] && Outcomes(now.log, r) == Outcomes(old(now).log, r) + [error]
      ensures now.log == old(now).log + [Retry(r, key, error)] + if error.None? then [Forgot(key)] else []
      ensures error.None? ==> key !in healer.seen
    {
      hide Recorded, Outcomes, Next;
      error := bk.RunSolve();
      SecondSolve(r, true, error);
      if error.None? {
        healer.Forget(key);
        ForgetKey(r);
      } else {
        assert now.log + [] == now.log;
      }
    }

    lemma SinceNow()
      ensures Since(store.log) == []
    {
    }

    ghost method FirstSolve(r: Rid, error: Option<string>)
      requires Recorded() && PcOf(now, r) == New && Outcomes(now.log, r) == []
      modifies this`run, this`actions, this`now
      ensures Recorded() && Extends() && now.seen == old(now).seen && now.log == old(now).log + [First(r, error)]
      ensures Outcomes(now.log, r) == [error]
      ensures PcOf(now, r) == if error.Some? then BuildRetry.Failed(error.value) else Over
    {
      hide Recorded;
      SolvesLast(now.log, [First(r, error)], r);
      var pc := if error.None? then Over else BuildRetry.Failed(error.value);
      Take(Solve(r, error), At(now, r, pc, [First(r, error)]));
    }

    ghost method SecondSolve(r: Rid, noticeSent: bool, error: Option<string>)
      requires Recorded() && PcOf(now, r).Repaired?
      modifies this`run, this`actions, this`now
      ensures Recorded() && Extends() && now.seen == old(now).seen
      ensures noticeSent ==> now.log == old(now).log + [Retry(r, PcOf(old(now), r).key, error)]
      ensures noticeSent ==> Outcomes(now.log, r) == Outcomes(old(now).log, r) + [error]
      ensures !noticeSent ==> now.log == old(now).log
      ensures PcOf(now, r) == if noticeSent && error.None? then Forgetting(PcOf(old(now), r).key) else Over
    {
      hide Recorded;
      var key := PcOf(now, r).key;
      SolvesLast(now.log, [Retry(r, key, error)], r);
      assert now.log + [] == now.log;
      Take(SolveAgain(r, noticeSent, error),
           if !noticeSent then At(now, r, Over, [])
           else At(now, r, if error.None? then Forgetting(key) else Over, [Retry(r, key, error)]));
    }

    ghost method ForgetKey(r: Rid)
      requires Recorded() && PcOf(now, r).Forgetting?
      modifies this`run, this`actions, this`now
      ensures Recorded() && Extends() && PcOf(now, r) == Over
      ensures now.seen == old(now).seen - {PcOf(old(now), r).key}
      ensures now.log == old(now).log + [Forgot(PcOf(old(now), r).key)]
      ensures Outcomes(now.log, r) == Outcomes(old(now).log, r)
    {
      hide Recorded;
      var key := PcOf(now, r).key;
      SolvesLast(now.log, [Forgot(key)], r);
      Take(Action.Forget(r), At(now.(seen := now.seen - {key}), r, Over, [Forgot(key)]));
    }

    /** What runs promise, for the last state. */
    lemma Facts(r: Rid)
      requires Recorded() && PcOf(now, r) == Over
      ensures 1 <= |Outcomes(now.log, r)| == Solves(now.log, r) <= 2
      ensures forall j :: 0 <= j < |now.log| && now.log[j].Retry? ==> Repair(now.log[j].r) in now.log[..j]
    {
      var last: nat := |run| - 1;
      OutcomesCount(now.log, r);
      hide Solves, Run, Outcomes;
      RunInv(run, actions, last);
      assert SolvesFit(Solves(now.log, r), PcOf(now, r));
    }

    lemma NotYet(r: Rid)
      requires Recorded() && PcOf(now, r) == New
      ensures Outcomes(now.log, r) == []
    {
      var last: nat := |run| - 1;
      OutcomesCount(now.log, r);
      hide Solves, Run, Outcomes;
      RunInv(run, actions, last);
      assert SolvesFit(Solves(now.log, r), PcOf(now, r));
    }
  }

  /** Of what was added to the log, this one key was forgotten and no other, or none was. */
  ghost predicate Drops(log: seq<Event>, log': seq<Event>, key: Option<string>) {
    log <= log' && forall k :: Forgot(k) in log'[|log|..] <==> key == Some(k)
  }

  lemma DropsNone(log: seq<Event>, log': seq<Event>, added: seq<Event>)
    requires log' == log + added && forall e :: e in added ==> !e.Forgot?
    ensures Drops(log, log', None)
  {
    assert log'[|log|..] == added;
  }

  lemma DropsMore(log: seq<Event>, log': seq<Event>, log'': seq<Event>, e: Event, key: Option<string>)
    requires Drops(log, log', None) && !e.Forgot?
    requires log'' == log' + [e] + (if key.Some? then [Forgot(key.value)] else [])
    ensures Drops(log, log'', key)
  {
    var last := [e] + if key.Some? then [Forgot(key.value)] else [];
    assert log'' == log' + last;
    assert log''[|log|..] == log'[|log|..] + last;
  }

  lemma NothingMends()
    ensures !Mends([])
  {
  }

  /** Ladder steps and repairs are no solves. */
  lemma Uncounted(log: seq<Event>, r: Rid)
    ensures log + [] == log
    ensures forall e: Event :: e.Handed? || e.Repair? ==> Outcomes(log + [e], r) == Outcomes(log, r)
  {
    forall e: Event | e.Handed? || e.Repair?
      ensures Outcomes(log + [e], r) == Outcomes(log, r)
    {
      LogLast(log, e);
    }
  }
}
