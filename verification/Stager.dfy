/** mountStager of pkg/dind/bindstage_linux.go as a system of concurrent threads.

    Any number of threads stage pins, close staged pins and tear the stager down. Each
    system call is one step, so threads interleave everywhere the lock lets them; other
    processes mount and unmount elsewhere at any time. */
module Stager {
  import opened Text
  import opened MountPath
  import opened MountTable

  type Tid = nat

  const SEQ_LIMIT: nat := 0x1_0000_0000_0000_0000

  datatype Op = Stage | Unstage(target: string) | Teardown

  /** Where a thread is. All but the first two hold the lock. */
  datatype Pc =
    | Away
    | Waiting(op: Op)
    | Staging
    | Made(target: string)
    | Detaching(target: string)
    | Detached(target: string)
    | Tearing
    | Torn
    | Leaving
  {
    predicate Holds() { !Away? && !Waiting? }
  }

  datatype State = State(
    dir: string,
    mu: Option<Tid>,
    ready: bool,
    closed: bool,
    /** The counter of type uint64, and how often it was advanced. */
    counter: nat,
    attempts: nat,
    mounts: seq<Mount>,
    entries: set<string>,
    pcs: map<Tid, Pc>,
    /** The paths `stage` has returned, with the attempt each came from. */
    staged: seq<string>,
    serials: seq<nat>,
    /** The sources something was deleted through a mount of. */
    destroyed: set<Source>)

  function PcOf(s: State, t: Tid): Pc {
    if t in s.pcs then s.pcs[t] else Away
  }

  function At(s: State, t: Tid, pc: Pc): State {
    s.(pcs := s.pcs[t := pc])
  }

  function Target(dir: string, n: nat): string {
    dir + "/" + Decimal(n)
  }

  /** Arithmetic of uint64. */
  function Wrap(n: nat): nat {
    n % SEQ_LIMIT
  }

  datatype Action =
    | Call(t: Tid, op: Op)
    | Acquire(t: Tid, dirExists: bool)
    | EnsureDir(t: Tid, ok: bool, made: bool, selfBind: seq<Mount>)
    | Create(t: Tid, ok: bool)
    | DoMount(t: Tid, ok: bool, removed: bool, mounts: seq<Mount>)
    | Detach(t: Tid, left: seq<Mount>)
    | Check(t: Tid, readable: bool)
    | RemoveTarget(t: Tid, ok: bool)
    | RemoveTree(t: Tid, kept: set<string>)
    | Release(t: Tid)
    | Others(mounts: seq<Mount>, entries: set<string>)

  ghost predicate Init(s: State) {
    && s.mu == None && !s.ready && !s.closed && s.counter == 0 && s.attempts == 0
    && s.pcs == map[] && s.staged == [] && s.serials == [] && s.destroyed == {}
    && ValidTable(s.mounts)
  }

  /** What an action adds to the table below the staging directory. */
  function Mounted(a: Action): seq<Mount> {
    match a
    case EnsureDir(_, _, _, selfBind) => selfBind
    case DoMount(_, _, _, mounts) => mounts
    case _ => []
  }

  ghost predicate Next(s: State, a: Action, s': State) {
    match a
    case Call(t, op) =>
      && PcOf(s, t) == Away && (op.Unstage? ==> op.target in s.staged)
      && s' == At(s, t, Waiting(op))
    case Acquire(t, dirExists) =>
      && s.mu == None && PcOf(s, t).Waiting?
      && var got := s.(mu := Some(t));
      (match PcOf(s, t).op
       case Stage => s' == At(got, t, if s.closed then Leaving else Staging)
       case Unstage(target) => s' == At(got, t, Detaching(target))
       case Teardown =>
         s' == At(got.(ready := false, closed := true), t, if s.ready || dirExists then Tearing else Leaving))
    case EnsureDir(t, ok, made, selfBind) =>
      && PcOf(s, t) == Staging && !s.ready && (ok ==> made)
      && (selfBind != [] ==> ok && |selfBind| == 1 && BoundAt(selfBind, s.dir))
      && var tried := s.(entries := if made then s.entries + {s.dir} else s.entries);
      s' == if ok then tried.(ready := true, mounts := s.mounts + selfBind) else At(tried, t, Leaving)
    case Create(t, ok) =>
      && PcOf(s, t) == Staging && s.ready
      && var n := Wrap(s.counter + 1);
      && var target := Target(s.dir, n);
      && (ok ==> target !in s.entries)
      && s' == At(s.(counter := n, attempts := s.attempts + 1,
                     entries := if ok then s.entries + {target} else s.entries),
                  t, if ok then Made(target) else Leaving)
    case DoMount(t, ok, removed, ms) =>
      && PcOf(s, t).Made? && var target := PcOf(s, t).target;
      && (if ok then BoundAt(ms, target) else ms == [])
      && s' == if !ok then At(s.(entries := if removed then s.entries - {target} else s.entries), t, Leaving)
               else At(s.(mounts := s.mounts + ms, staged := s.staged + [target],
                          serials := s.serials + [s.attempts]), t, Leaving)
    case Detach(t, left) =>
      && (PcOf(s, t).Detaching? || PcOf(s, t).Tearing?)
      && Peeled(s.mounts, left, if PcOf(s, t).Detaching? then PcOf(s, t).target else s.dir)
      && s' == s.(mounts := left)
    case Check(t, readable) =>
      && (PcOf(s, t).Detaching? || PcOf(s, t).Tearing?) && ValidTable(s.mounts)
      && var dir := if PcOf(s, t).Detaching? then PcOf(s, t).target else s.dir;
      && s' == At(s, t, if !readable || Listing(s.mounts, dir) != [] then Leaving
                        else if PcOf(s, t).Tearing? then Torn else Detached(dir))
    case RemoveTarget(t, ok) =>
      && PcOf(s, t).Detached? && (ok ==> Stacked(s.mounts, PcOf(s, t).target) == 0)
      && s' == At(s.(entries := if ok then s.entries - {PcOf(s, t).target} else s.entries), t, Leaving)
    case RemoveTree(t, kept) =>
      && PcOf(s, t) == Torn && kept <= s.entries && (forall e :: e in s.entries && !Under(s.dir, e) ==> e in kept)
      && s' == At(s.(entries := kept, destroyed := s.destroyed + Sources(s.mounts, s.dir)), t, Leaving)
    case Release(t) =>
      PcOf(s, t) == Leaving && s' == At(s.(mu := None), t, Away)
    case Others(mounts, entries) =>
      && ValidTable(mounts) && AtOrBelow(mounts, s.dir) == AtOrBelow(s.mounts, s.dir)
      && (forall e :: Under(s.dir, e) ==> (e in entries <==> e in s.entries))
      && s' == s.(mounts := mounts, entries := entries)
  }

  /** Mutual exclusion: exactly the holder of the lock is past it. */
  predicate Exclusive(s: State) {
    forall t :: t in s.pcs && s.pcs[t].Holds() ==> s.mu == Some(t)
  }

  /** No thread is between the `closed` check and the mount once the stager is closed. */
  predicate Sealed(s: State) {
    s.closed ==> forall t :: t in s.pcs ==> !s.pcs[t].Staging? && !s.pcs[t].Made?
  }

  /** A pin is closed at a path that stage made up. */
  ghost predicate Aimed(s: State) {
    && (forall x :: x in s.staged ==> IsTarget(s.dir, x))
    && (forall t :: t in s.pcs && AimOf(s.pcs[t]).Some? ==> IsTarget(s.dir, AimOf(s.pcs[t]).value))
  }

  function AimOf(pc: Pc): Option<string> {
    match pc
    case Waiting(Unstage(x)) => Some(x)
    case Made(x) => Some(x)
    case Detaching(x) => Some(x)
    case Detached(x) => Some(x)
    case _ => None
  }

  ghost predicate IsTarget(dir: string, x: string) {
    exists n :: x == Target(dir, n)
  }

  /** The counter is the number of attempts until it wraps around, and every path returned
      is named by the attempt it came from. */
  predicate Numbered(s: State) {
    && s.counter == Wrap(s.attempts)
    && Labelled(s.dir, s.staged, s.serials, s.attempts)
    && forall t :: t in s.pcs && s.pcs[t].Made? ==> Fresh(s.dir, s.pcs[t].target, s.serials, s.attempts)
  }

  predicate Labelled(dir: string, staged: seq<string>, serials: seq<nat>, attempts: nat) {
    && |serials| == |staged|
    && (forall i :: 0 <= i < |serials| ==> serials[i] <= attempts && staged[i] == Target(dir, Wrap(serials[i])))
    && (forall i, j :: 0 <= i < j < |serials| ==> serials[i] < serials[j])
  }

  /** The mountpoint of the latest attempt, which nothing has returned yet. */
  predicate Fresh(dir: string, target: string, serials: seq<nat>, attempts: nat) {
    target == Target(dir, Wrap(attempts)) && forall i :: 0 <= i < |serials| ==> serials[i] < attempts
  }

  ghost predicate Inv(s: State) {
    Exclusive(s) && Sealed(s) && Numbered(s) && Aimed(s)
  }

  lemma StepExclusive(s: State, a: Action, s': State)
    requires Next(s, a, s') && Exclusive(s)
    ensures Exclusive(s')
  {
  }

  lemma StepSealed(s: State, a: Action, s': State)
    requires Next(s, a, s') && Exclusive(s) && Sealed(s)
    ensures Sealed(s')
  {
  }

  /** Where the path a thread works on comes from. */
  lemma WhoAims(s: State, a: Action, s': State, u: Tid)
    requires Next(s, a, s') && u in s'.pcs && AimOf(s'.pcs[u]).Some?
    ensures AimOf(PcOf(s, u)) == AimOf(s'.pcs[u]) || AimOf(s'.pcs[u]).value in s.staged
            || AimOf(s'.pcs[u]).value == Target(s.dir, Wrap(s.counter + 1))
  {
    hide Listing, Peeled, BoundAt, AtOrBelow, Wrap, Target, Under, ValidTable, Sources, ValidLine;
    if a.Others? || u != a.t {
      assert PcOf(s, u) == s'.pcs[u];
    } else {
      match a
      case Acquire(_, _) =>
      case Create(_, _) =>
      case Check(_, _) =>
      case Detach(_, _) =>
      case _ =>
    }
  }

  lemma WhoStages(s: State, a: Action, s': State)
    requires Next(s, a, s')
    ensures s'.dir == s.dir
    ensures s'.staged == s.staged || (AimOf(PcOf(s, a.t)).Some? && s'.staged == s.staged + [AimOf(PcOf(s, a.t)).value])
  {
    hide Listing, Peeled, BoundAt, AtOrBelow, Wrap, Target, Under, ValidTable, Sources, ValidLine;
  }

  lemma StepAimed(s: State, a: Action, s': State)
    requires Next(s, a, s') && Aimed(s)
    ensures Aimed(s')
  {
    assert IsTarget(s.dir, Target(s.dir, Wrap(s.counter + 1)));
    hide Next, IsTarget, Target, Wrap;
    WhoStages(s, a, s');
    forall u | u in s'.pcs && AimOf(s'.pcs[u]).Some?
      ensures IsTarget(s'.dir, AimOf(s'.pcs[u]).value)
    {
      WhoAims(s, a, s', u);
    }
  }

  lemma WhoMakes(s: State, a: Action, s': State, u: Tid)
    requires Next(s, a, s') && !a.Create? && u in s'.pcs && s'.pcs[u].Made?
    ensures u in s.pcs && s.pcs[u] == s'.pcs[u]
  {
    hide Listing, Peeled, BoundAt, AtOrBelow, Wrap, Target, Under, ValidTable, Sources, ValidLine;
    if a.Others? || u != a.t {
      assert PcOf(s, u) == s'.pcs[u];
    }
  }

  /** Only creating a mountpoint and mounting on it touch the numbering. */
  lemma WhoNumbers(s: State, a: Action, s': State)
    requires Next(s, a, s') && !a.Create? && !a.DoMount?
    ensures s'.dir == s.dir && s'.counter == s.counter && s'.attempts == s.attempts
    ensures s'.staged == s.staged && s'.serials == s.serials
    ensures forall u :: u in s'.pcs && s'.pcs[u].Made? ==> u in s.pcs && s.pcs[u] == s'.pcs[u]
  {
    hide Listing, Peeled, BoundAt, AtOrBelow, Wrap, Target, Under, ValidTable, Sources, ValidLine;
    forall u | u in s'.pcs && s'.pcs[u].Made?
      ensures u in s.pcs && s.pcs[u] == s'.pcs[u]
    {
      WhoMakes(s, a, s', u);
    }
  }

  lemma CreateNumbered(s: State, a: Action, s': State)
    requires Next(s, a, s') && Exclusive(s) && Numbered(s) && a.Create?
    ensures Numbered(s')
  {
    hide Wrap, Labelled, Fresh, Target;
    NextCounter(s.attempts);
    Advances(s.dir, s.staged, s.serials, s.attempts);
  }

  lemma MountNumbered(s: State, a: Action, s': State)
    requires Next(s, a, s') && Exclusive(s) && Numbered(s) && a.DoMount?
    ensures Numbered(s')
  {
    hide Wrap, Labelled, Fresh, Target, BoundAt;
    if a.ok {
      Returns(s.dir, s.pcs[a.t].target, s.staged, s.serials, s.attempts);
    }
  }

  lemma StepNumbered(s: State, a: Action, s': State)
    requires Next(s, a, s') && Exclusive(s) && Numbered(s)
    ensures Numbered(s')
  {
    hide Next, Wrap, Labelled, Fresh, Exclusive;
    if a.Create? {
      CreateNumbered(s, a, s');
    } else if a.DoMount? {
      MountNumbered(s, a, s');
    } else {
      WhoNumbers(s, a, s');
    }
  }

  lemma NextCounter(n: nat)
    ensures Wrap(Wrap(n) + 1) == Wrap(n + 1)
  {
  }

  lemma Advances(dir: string, staged: seq<string>, serials: seq<nat>, attempts: nat)
    requires Labelled(dir, staged, serials, attempts)
    ensures Labelled(dir, staged, serials, attempts + 1)
    ensures Fresh(dir, Target(dir, Wrap(attempts + 1)), serials, attempts + 1)
  {
  }

  lemma Returns(dir: string, target: string, staged: seq<string>, serials: seq<nat>, attempts: nat)
    requires Labelled(dir, staged, serials, attempts) && Fresh(dir, target, serials, attempts)
    ensures Labelled(dir, staged + [target], serials + [attempts], attempts)
  {
  }

  /** A run: every state follows from the one before by some step. */
  ghost predicate Run(run: seq<State>, actions: seq<Action>) {
    && |run| == |actions| + 1 && Init(run[0])
    && forall i :: 0 <= i < |actions| ==> Next(run[i], actions[i], run[i + 1])
  }

  lemma RunLength(run: seq<State>, actions: seq<Action>)
    requires Run(run, actions)
    ensures |run| == |actions| + 1
  {
  }

  lemma RunStep(run: seq<State>, actions: seq<Action>, i: nat)
    requires Run(run, actions) && |run| == |actions| + 1 && i < |actions|
    ensures Next(run[i], actions[i], run[i + 1])
  {
    hide Next, Init;
  }

  lemma RunStart(run: seq<State>, actions: seq<Action>)
    requires Run(run, actions) && |run| > 0
    ensures Inv(run[0]) && run[0].attempts == 0 && run[0].destroyed == {} && run[0].pcs == map[] && !run[0].ready
    ensures ValidTable(run[0].mounts)
  {
    hide Next, ValidTable;
  }

  lemma StepInv(s: State, a: Action, s': State)
    requires Next(s, a, s') && Inv(s)
    ensures Inv(s') && s'.dir == s.dir && s'.attempts <= s.attempts + 1
  {
    hide Next, Exclusive, Sealed, Numbered, Aimed;
    StepExclusive(s, a, s');
    StepSealed(s, a, s');
    StepNumbered(s, a, s');
    StepAimed(s, a, s');
    StepCounts(s, a, s');
  }

  lemma StepCounts(s: State, a: Action, s': State)
    requires Next(s, a, s')
    ensures s'.dir == s.dir && s'.attempts <= s.attempts + 1
  {
    hide Listing, Peeled, BoundAt, AtOrBelow, Wrap, Target, Under, ValidTable, Sources, ValidLine;
  }

  lemma {:induction false} RunInv(run: seq<State>, actions: seq<Action>, i: nat)
    requires Run(run, actions) && i < |run|
    ensures Inv(run[i]) && run[i].dir == run[0].dir && run[i].attempts <= i
  {
    hide *;
    RunLength(run, actions);
    if i == 0 {
      RunStart(run, actions);
    } else {
      RunInv(run, actions, i - 1);
      RunStep(run, actions, i - 1);
      StepInv(run[i - 1], actions[i - 1], run[i]);
    }
  }

  lemma Holder(s: State)
    requires Inv(s)
    ensures Exclusive(s) && Aimed(s)
  {
  }

  lemma StepClosed(s: State, a: Action, s': State)
    requires Next(s, a, s') && Sealed(s) && s.closed
    ensures s'.closed && s'.staged == s.staged
  {
  }

  /** Teardown is final: once closed the stager stays closed and stages nothing more. */
  lemma {:induction false} ClosedIsFinal(run: seq<State>, actions: seq<Action>, i: nat, j: nat)
    requires Run(run, actions) && i <= j < |run| && run[i].closed
    ensures run[j].closed && run[j].staged == run[i].staged
    decreases j - i
  {
    if i < j {
      ClosedIsFinal(run, actions, i, j - 1);
      RunInv(run, actions, j - 1);
      assert Next(run[j - 1], actions[j - 1], run[j - 1 + 1]);
      StepClosed(run[j - 1], actions[j - 1], run[j]);
    }
  }

  lemma LabelsDistinct(dir: string, staged: seq<string>, serials: seq<nat>, attempts: nat, i: nat, j: nat)
    requires Labelled(dir, staged, serials, attempts) && attempts < SEQ_LIMIT && i < j < |staged|
    ensures staged[i] != staged[j]
  {
    hide Decimal;
    var m, n := serials[i], serials[j];
    assert Wrap(m) == m && Wrap(n) == n;
    assert Target(dir, m)[|dir| + 1..] == Decimal(m) && Target(dir, n)[|dir| + 1..] == Decimal(n);
    if staged[i] == staged[j] {
      DecimalInjective(m, n);
      assert false;
    }
  }

  /** Until the 64-bit counter wraps around, no two calls of stage return the same path. */
  lemma TargetsDistinct(run: seq<State>, actions: seq<Action>, k: nat, i: nat, j: nat)
    requires Run(run, actions) && k < |run| && i < j < |run[k].staged|
    requires run[k].attempts < SEQ_LIMIT
    ensures run[k].staged[i] != run[k].staged[j]
  {
    hide Run, Labelled;
    RunInv(run, actions, k);
    LabelsDistinct(run[k].dir, run[k].staged, run[k].serials, run[k].attempts, i, j);
  }
}
