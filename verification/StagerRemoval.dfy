/** What the threads of Stager delete: never anything that the mount table shows, and of a
    source that is shown or lies on something that is, nothing at all, in any interleaving. */
module StagerRemoval {
  import opened Text
  import opened MountTable
  import opened Stager

  lemma {:induction false} AtOrBelowHas(ms: seq<Mount>, dir: string, m: Mount)
    ensures m in AtOrBelow(ms, dir) <==> m in ms && Under(dir, m.line.point)
  {
    if ms != [] {
      AtOrBelowHas(ms[..|ms| - 1], dir, m);
      assert ms == ms[..|ms| - 1] + [ms[|ms| - 1]];
    }
  }

  /** The claim is about mounts at or below `dir` only. */
  predicate InScope(c: Claim, dir: string) {
    match c
    case Seen(d, _) => d == dir
    case Rooted(path) => Under(dir, path)
  }

  lemma ScopeBelow(c: Claim, dir: string, g: Mount, m: Mount)
    requires InScope(c, dir)
    ensures Concerns(c, m) ==> Under(dir, m.line.point)
    ensures Carries(c, g, m) ==> Under(dir, g.line.point)
  {
    if c.Rooted? && Concerns(c, m) {
      UnderTrans(dir, c.path, m.line.point);
    }
  }

  /** Whether it holds is a matter of those mounts. */
  lemma {:induction false} CarriedBelow(ms: seq<Mount>, dir: string, c: Claim)
    requires InScope(c, dir)
    ensures Carried(ms, c) <==> Carried(AtOrBelow(ms, dir), c)
  {
    hide Under, Concerns, Carries, InScope;
    if ms != [] {
      var init, m := ms[..|ms| - 1], ms[|ms| - 1];
      CarriedBelow(init, dir, c);
      var below := AtOrBelow(init, dir);
      assert (below + [m])[..|below|] == below;
      ScopeBelow(c, dir, m, m);
      forall g
        ensures g in below && Carries(c, g, m) <==> g in init && Carries(c, g, m)
      {
        AtOrBelowHas(init, dir, g);
        ScopeBelow(c, dir, g, m);
      }
    }
  }

  /** What others do elsewhere changes nothing at or below the staging directory. */
  lemma OthersAreElsewhere(ms: seq<Mount>, ms': seq<Mount>, dir: string)
    requires AtOrBelow(ms', dir) == AtOrBelow(ms, dir)
    ensures forall m: Mount :: Under(dir, m.line.point) ==> (m in ms' <==> m in ms)
  {
    hide Under;
    forall m: Mount | Under(dir, m.line.point)
      ensures m in ms' <==> m in ms
    {
      AtOrBelowHas(ms', dir, m);
      AtOrBelowHas(ms, dir, m);
    }
  }

  /** How the table changes: something is bound, detached, or done elsewhere. */
  lemma HowMounts(s: State, a: Action, s': State)
    requires Next(s, a, s')
    ensures s'.dir == s.dir
    ensures s'.mounts == s.mounts || s'.mounts == s.mounts + Mounted(a)
            || (a.Detach? && exists at :: Peeled(s.mounts, s'.mounts, at))
            || (a.Others? && ValidTable(s'.mounts) && AtOrBelow(s'.mounts, s.dir) == AtOrBelow(s.mounts, s.dir))
  {
    hide Listing, Peeled, AtOrBelow, Wrap, Target, Under, Sources, ValidTable, Stacked;
  }

  lemma StepCarried(s: State, a: Action, s': State, c: Claim)
    requires Next(s, a, s') && InScope(c, s.dir)
    requires Carried(s.mounts, c) && AddsCarried(s.mounts, Mounted(a), c)
    ensures Carried(s'.mounts, c)
  {
    HowMounts(s, a, s');
    hide Next, Carried, AddsCarried, Mounted, Peeled, AtOrBelow, InScope;
    if a.Others? && s'.mounts != s.mounts {
      CarriedBelow(s.mounts, s.dir, c);
      CarriedBelow(s'.mounts, s.dir, c);
    } else if s'.mounts == s.mounts + Mounted(a) {
      CarriedAppend(s.mounts, Mounted(a), c);
    } else if s'.mounts != s.mounts {
      var at :| Peeled(s.mounts, s'.mounts, at);
      PeeledCarried(s.mounts, s'.mounts, at, c);
    }
  }

  /** A run in which the claim holds at first and of everything mounted. */
  ghost predicate CarriedRun(run: seq<State>, actions: seq<Action>, c: Claim) {
    && Run(run, actions) && InScope(c, run[0].dir) && Carried(run[0].mounts, c)
    && forall i :: 0 <= i < |actions| ==> AddsCarried(run[i].mounts, Mounted(actions[i]), c)
  }

  lemma CarriedStart(run: seq<State>, actions: seq<Action>, c: Claim)
    requires CarriedRun(run, actions, c)
    ensures Run(run, actions) && |run| > 0 && InScope(c, run[0].dir) && Carried(run[0].mounts, c)
  {
    hide Next, Carried, AddsCarried, InScope;
  }

  lemma CarriedStep(run: seq<State>, actions: seq<Action>, c: Claim, i: nat)
    requires CarriedRun(run, actions, c) && i < |actions|
    ensures |run| > i && AddsCarried(run[i].mounts, Mounted(actions[i]), c)
  {
    hide Next, Carried, AddsCarried, Mounted, InScope;
  }

  lemma {:induction false} RunCarried(run: seq<State>, actions: seq<Action>, c: Claim, i: nat)
    requires CarriedRun(run, actions, c) && i < |run|
    ensures Carried(run[i].mounts, c)
  {
    hide *;
    CarriedStart(run, actions, c);
    RunLength(run, actions);
    if i > 0 {
      RunCarried(run, actions, c, i - 1);
      RunInv(run, actions, i - 1);
      RunStep(run, actions, i - 1);
      CarriedStep(run, actions, c, i - 1);
      StepCarried(run[i - 1], actions[i - 1], run[i], c);
    }
  }

  // ---- Tearing the stager down ----

  /** A thread about to remove the tree has nothing below it that the table shows. */
  predicate TornHidden(s: State) {
    forall t :: t in s.pcs && s.pcs[t].Torn? ==> AllHidden(s.mounts, s.dir)
  }

  /** Apart from others elsewhere, only a thread that holds the lock, and not to remove the
      tree, changes what is mounted. */
  lemma WhoMounts(s: State, a: Action, s': State)
    requires Next(s, a, s') && !a.Others?
    ensures s'.dir == s.dir
    ensures s'.mounts == s.mounts || (PcOf(s, a.t).Holds() && !PcOf(s, a.t).Torn? && !PcOf(s, a.t).Detached?)
  {
    hide Listing, Peeled, BoundAt, Wrap, Target, Under, ValidTable, Sources, Stacked;
  }

  /** A thread comes to remove the tree only by finding nothing listed in it. */
  lemma WhoRemoves(s: State, a: Action, s': State, u: Tid)
    requires Next(s, a, s') && u in s'.pcs && s'.pcs[u].Torn?
    ensures PcOf(s, u).Torn?
            || (a.Check? && a.t == u && ValidTable(s.mounts) && Listing(s.mounts, s.dir) == [] && s'.mounts == s.mounts)
    ensures s'.dir == s.dir
  {
    hide Listing, Peeled, BoundAt, Wrap, Target, Under, ValidTable, Sources, Stacked;
  }

  lemma OthersHidden(s: State, a: Action, s': State)
    requires Next(s, a, s') && a.Others? && AllHidden(s.mounts, s.dir)
    ensures AllHidden(s'.mounts, s'.dir)
  {
    hide Under, Shown;
    OthersAreElsewhere(s.mounts, a.mounts, s.dir);
  }

  /** While one thread is about to remove the tree, no step of any other puts anything into it
      that the table shows, or anything at all if it is not already there. */
  lemma StepTorn(s: State, a: Action, s': State, u: Tid)
    requires Next(s, a, s') && Exclusive(s) && TornHidden(s)
    requires u in s'.pcs && s'.pcs[u].Torn?
    ensures AllHidden(s'.mounts, s'.dir)
    ensures PcOf(s, u).Torn? ==> forall m: Mount :: m in s'.mounts && Under(s.dir, m.line.point) ==> m in s.mounts
  {
    hide Next, Listing, ValidTable, AllHidden, Under;
    WhoRemoves(s, a, s', u);
    if !PcOf(s, u).Torn? {
      EmptyListing(s.mounts, s.dir);
    } else if a.Others? {
      OthersHidden(s, a, s');
      OthersOnly(s, a, s');
    } else {
      WhoMounts(s, a, s');
    }
  }

  lemma OthersOnly(s: State, a: Action, s': State)
    requires Next(s, a, s') && a.Others?
    ensures forall m: Mount :: m in s'.mounts && Under(s.dir, m.line.point) ==> m in s.mounts
  {
    hide Under;
    OthersAreElsewhere(s.mounts, a.mounts, s.dir);
  }

  lemma StepAllTorn(s: State, a: Action, s': State)
    requires Next(s, a, s') && Exclusive(s) && TornHidden(s)
    ensures TornHidden(s')
  {
    hide Next, Exclusive, AllHidden;
    forall u | u in s'.pcs && s'.pcs[u].Torn?
      ensures AllHidden(s'.mounts, s'.dir)
    {
      StepTorn(s, a, s', u);
    }
  }

  lemma {:induction false} RunTorn(run: seq<State>, actions: seq<Action>, i: nat)
    requires Run(run, actions) && i < |run|
    ensures TornHidden(run[i])
  {
    hide *;
    RunLength(run, actions);
    RunStart(run, actions);
    if i == 0 {
      NobodyTorn(run[0]);
    } else {
      RunTorn(run, actions, i - 1);
      RunInv(run, actions, i - 1);
      RunStep(run, actions, i - 1);
      Holder(run[i - 1]);
      StepAllTorn(run[i - 1], actions[i - 1], run[i]);
    }
  }

  lemma NobodyTorn(s: State)
    requires s.pcs == map[]
    ensures TornHidden(s)
  {
  }

  /** Only the removal of the tree deletes anything, and what it finds mounted there. */
  lemma WhoDestroys(s: State, a: Action, s': State, x: Source)
    requires Next(s, a, s') && x in s'.destroyed && x !in s.destroyed
    ensures a.RemoveTree? && PcOf(s, a.t).Torn? && x in Sources(s.mounts, s.dir)
  {
    hide Listing, Peeled, BoundAt, AtOrBelow, Wrap, Target, ValidTable, Stacked, Sources;
  }

  lemma TornSource(s: State, t: Tid, x: Source)
    requires TornHidden(s) && PcOf(s, t).Torn? && x in Sources(s.mounts, s.dir)
    ensures HiddenSource(s.mounts, s.dir, x) && AllHidden(s.mounts, s.dir)
  {
    hide Shown, Under;
  }

  /** In every run, whatever is mounted: if a source was deleted, then by a removal of the tree
      in which it was mounted unseen, like all that was mounted there then. */
  lemma {:induction false} DestroyedWasHidden(run: seq<State>, actions: seq<Action>, i: nat, x: Source) returns (j: nat)
    requires Run(run, actions) && i < |run| && x in run[i].destroyed
    ensures j < i && j < |actions| && actions[j].RemoveTree?
    ensures HiddenSource(run[j].mounts, run[j].dir, x) && AllHidden(run[j].mounts, run[j].dir)
  {
    hide *;
    RunLength(run, actions);
    RunStart(run, actions);
    assert i > 0;
    if x in run[i - 1].destroyed {
      j := DestroyedWasHidden(run, actions, i - 1, x);
    } else {
      j := i - 1;
      RunStep(run, actions, j);
      WhoDestroys(run[j], actions[j], run[i], x);
      RunTorn(run, actions, j);
      TornSource(run[j], actions[j].t, x);
    }
  }

  /** Whatever is mounted of this source is shown, or is mounted on something that is. */
  ghost predicate SparingRun(run: seq<State>, actions: seq<Action>, x: Source) {
    |run| > 0 && CarriedRun(run, actions, Seen(run[0].dir, x))
  }

  lemma SparingRunIs(run: seq<State>, actions: seq<Action>, x: Source)
    ensures SparingRun(run, actions, x) <==>
              && Run(run, actions) && Guarded(run[0].mounts, run[0].dir, x)
              && forall i :: 0 <= i < |actions| ==> AddsGuarded(run[i].mounts, Mounted(actions[i]), run[0].dir, x)
  {
    hide Carried, AddsCarried, Next;
  }

  lemma HiddenNotGuarded(ms: seq<Mount>, dir: string, x: Source)
    requires HiddenSource(ms, dir, x) && AllHidden(ms, dir)
    ensures !Guarded(ms, dir, x)
  {
    hide Shown, Under, Guarded;
    if Guarded(ms, dir, x) {
      GuardedIsGone(ms, dir, x);
      assert false;
    }
  }

  /** A source that is guarded whenever it is mounted is never deleted, whatever else is
      mounted beside it. */
  lemma SparesSource(run: seq<State>, actions: seq<Action>, i: nat, x: Source)
    requires SparingRun(run, actions, x) && i < |run|
    ensures x !in run[i].destroyed
  {
    var c := Seen(run[0].dir, x);
    hide Next, Carried, AddsCarried, HiddenSource, AllHidden, Run, Inv;
    if x in run[i].destroyed {
      var j := DestroyedWasHidden(run, actions, i, x);
      RunCarried(run, actions, c, j);
      RunInv(run, actions, j);
      HiddenNotGuarded(run[j].mounts, run[j].dir, x);
      assert false;
    }
  }

  /** All of them are. */
  ghost predicate GuardedRun(run: seq<State>, actions: seq<Action>) {
    forall x :: SparingRun(run, actions, x)
  }

  /** Never delete through a mount: in no such run, however the threads interleave, is anything
      deleted through a mount, and a tree is removed only while nothing is mounted in it. */
  lemma NeverDeletesThroughMount(run: seq<State>, actions: seq<Action>, i: nat)
    requires GuardedRun(run, actions) && i < |run|
    ensures run[i].destroyed == {}
    ensures i < |actions| && actions[i].RemoveTree? ==> Free(run[i].mounts, run[i].dir)
  {
    hide Next, Run, CarriedRun, Free;
    forall x
      ensures x !in run[i].destroyed
    {
      assert SparingRun(run, actions, x);
      SparesSource(run, actions, i, x);
    }
    if i < |actions| && actions[i].RemoveTree? {
      RemovesFree(run, actions, i);
    }
  }

  lemma Removing(s: State, a: Action, s': State)
    requires Next(s, a, s') && a.RemoveTree? && TornHidden(s)
    ensures AllHidden(s.mounts, s.dir)
  {
    hide AllHidden, Under, Sources;
  }

  lemma RemovesFree(run: seq<State>, actions: seq<Action>, i: nat)
    requires GuardedRun(run, actions) && i < |run| && i < |actions| && actions[i].RemoveTree?
    ensures Free(run[i].mounts, run[i].dir)
  {
    assert SparingRun(run, actions, 0);
    RunLength(run, actions);
    hide Next, Run, Carried, AddsCarried, AllHidden, Under, Inv, TornHidden;
    RunStep(run, actions, i);
    RunTorn(run, actions, i);
    RunInv(run, actions, i);
    Removing(run[i], actions[i], run[i + 1]);
    forall m | m in run[i].mounts
      ensures !Under(run[i].dir, m.line.point)
    {
      assert SparingRun(run, actions, m.source);
      RunCarried(run, actions, Seen(run[0].dir, m.source), i);
      GuardedIsGone(run[i].mounts, run[i].dir, m.source);
    }
  }

  // ---- The self-bind of the staging directory as a guard ----

  /** While the stager is ready the directory's bind onto itself is in the table. */
  ghost predicate Anchored(s: State) {
    s.ready ==> exists g :: g in s.mounts && IsAnchor(g, s.dir)
  }

  predicate IsAnchor(g: Mount, dir: string) {
    g.line.point == dir && Shown(g.line, dir)
  }

  /** Whoever is about to mount found the stager ready. */
  predicate Ready(s: State) {
    forall t :: t in s.pcs && s.pcs[t].Made? ==> s.ready
  }

  /** Whenever the directory was made ready it was bound onto itself, for all to see. */
  ghost predicate BoundRun(run: seq<State>, actions: seq<Action>) {
    && Run(run, actions)
    && forall i :: 0 <= i < |actions| && actions[i].EnsureDir? && actions[i].ok ==>
         actions[i].selfBind != [] && Shown(actions[i].selfBind[0].line, run[0].dir)
  }

  /** What detaches a staged path leaves the directory's own mount alone. */
  lemma AnchorStays(s: State, left: seq<Mount>, x: string, g: Mount)
    requires IsTarget(s.dir, x) && Peeled(s.mounts, left, x) && g in s.mounts && IsAnchor(g, s.dir)
    ensures g in left
  {
    var n :| x == Target(s.dir, n);
    TargetBelow(s.dir, n);
    if Under(x, s.dir) && x != s.dir {
      BelowIsLonger(x, s.dir);
    }
    PeeledTrims(s.mounts, left, x);
    ElsewhereHas(s.mounts, x, g);
    ElsewhereHas(left, x, g);
  }

  lemma {:induction false} ElsewhereHas(ms: seq<Mount>, dir: string, m: Mount)
    ensures m in Elsewhere(ms, dir) <==> m in ms && !Under(dir, m.line.point)
  {
    if ms != [] {
      ElsewhereHas(ms[..|ms| - 1], dir, m);
      assert ms == ms[..|ms| - 1] + [ms[|ms| - 1]];
    }
  }

  lemma StepReady(s: State, a: Action, s': State)
    requires Next(s, a, s') && Exclusive(s) && Ready(s)
    ensures Ready(s')
  {
    hide Listing, Peeled, AtOrBelow, Wrap, Target, Under, ValidTable, Sources, Stacked, BoundAt;
  }

  /** How the anchor can come and go. */
  lemma HowAnchored(s: State, a: Action, s': State)
    requires Next(s, a, s') && s'.ready
    ensures s'.dir == s.dir
    ensures || (s.ready && s.mounts <= s'.mounts)
            || (a.EnsureDir? && a.ok && s'.mounts == s.mounts + a.selfBind
                && (a.selfBind != [] ==> BoundAt(a.selfBind, s.dir)))
            || (s.ready && a.Detach? && PcOf(s, a.t).Detaching? && Peeled(s.mounts, s'.mounts, PcOf(s, a.t).target))
            || (s.ready && a.Detach? && PcOf(s, a.t).Tearing?)
            || (s.ready && a.Others? && AtOrBelow(s'.mounts, s.dir) == AtOrBelow(s.mounts, s.dir))
  {
    hide Listing, Peeled, AtOrBelow, Wrap, Target, Under, ValidTable, Sources, Stacked, BoundAt;
  }

  /** A teardown under way has ended readiness. */
  predicate Down(s: State) {
    forall t :: t in s.pcs && s.pcs[t].Tearing? ==> !s.ready
  }

  lemma StepDown(s: State, a: Action, s': State)
    requires Next(s, a, s') && Exclusive(s) && Down(s)
    ensures Down(s')
  {
    hide Listing, Peeled, AtOrBelow, Wrap, Target, Under, ValidTable, Sources, Stacked, BoundAt;
  }

  lemma StepAnchored(s: State, a: Action, s': State)
    requires Next(s, a, s') && Anchored(s) && Aimed(s) && Down(s)
    requires a.EnsureDir? && a.ok ==> a.selfBind != [] && Shown(a.selfBind[0].line, s.dir)
    ensures Anchored(s')
  {
    if s'.ready {
      HowAnchored(s, a, s');
      hide Next, Peeled, AtOrBelow, IsTarget, Shown, Under, BoundAt;
      if a.EnsureDir? && a.ok && s'.mounts == s.mounts + a.selfBind {
        assert BoundAt(a.selfBind, s.dir);
        BoundHead(a.selfBind, s.dir);
        assert a.selfBind[0] in s'.mounts;
      } else {
        var g :| g in s.mounts && IsAnchor(g, s.dir);
        if a.Others? && AtOrBelow(s'.mounts, s.dir) == AtOrBelow(s.mounts, s.dir) {
          OthersAreElsewhere(s.mounts, s'.mounts, s.dir);
          UnderSelf(s.dir);
        } else if !(s.mounts <= s'.mounts) {
          AnchorStays(s, s'.mounts, PcOf(s, a.t).target, g);
        }
        assert g in s'.mounts;
      }
    }
  }

  lemma BoundHead(ms: seq<Mount>, p: string)
    requires BoundAt(ms, p)
    ensures ms != [] && ms[0].line.point == p
  {
  }

  lemma UnderSelf(dir: string)
    ensures Under(dir, dir)
  {
  }

  lemma BoundStart(run: seq<State>, actions: seq<Action>)
    requires BoundRun(run, actions)
    ensures Run(run, actions) && |run| > 0 && Anchored(run[0]) && Ready(run[0]) && Down(run[0])
  {
    hide Next, Shown;
  }

  lemma BoundStep(run: seq<State>, actions: seq<Action>, i: nat)
    requires BoundRun(run, actions) && i < |actions|
    ensures |run| > i
    ensures actions[i].EnsureDir? && actions[i].ok ==>
              actions[i].selfBind != [] && Shown(actions[i].selfBind[0].line, run[0].dir)
  {
    hide Next, Shown;
  }

  lemma {:induction false} RunAnchored(run: seq<State>, actions: seq<Action>, i: nat)
    requires BoundRun(run, actions) && i < |run|
    ensures Anchored(run[i]) && Ready(run[i]) && Down(run[i])
  {
    hide *;
    BoundStart(run, actions);
    RunLength(run, actions);
    if i > 0 {
      var s, a, s' := run[i - 1], actions[i - 1], run[i];
      RunAnchored(run, actions, i - 1);
      RunInv(run, actions, i - 1);
      RunStep(run, actions, i - 1);
      BoundStep(run, actions, i - 1);
      Holder(s);
      StepReady(s, a, s');
      StepDown(s, a, s');
      StepAnchored(s, a, s');
    }
  }

  /** Where something is mounted, and over what. */
  lemma WhereMounted(s: State, a: Action, s': State)
    requires Next(s, a, s') && Ready(s) && Aimed(s)
    ensures a.DoMount? ==> s.ready && forall m :: m in a.mounts ==> Under(s.dir, m.line.point)
    ensures a.EnsureDir? ==> |a.selfBind| <= 1 && (a.selfBind != [] ==> a.ok)
  {
    if a.DoMount? && a.mounts != [] {
      var x := PcOf(s, a.t).target;
      assert IsTarget(s.dir, x);
      var n :| x == Target(s.dir, n);
      TargetBelow(s.dir, n);
      forall m | m in a.mounts
        ensures Under(s.dir, m.line.point)
      {
        UnderTrans(s.dir, x, m.line.point);
      }
    }
  }

  lemma AnchorGuards(ms: seq<Mount>, added: seq<Mount>, g: Mount, dir: string, x: Source)
    requires g in ms && IsAnchor(g, dir)
    ensures AddsGuarded(ms, added, dir, x)
  {
    UnderSelf(dir);
    hide Under, Shown;
    var c := Seen(dir, x);
    forall k | 0 <= k < |added| && Concerns(c, added[k])
      ensures g in ms + added[..k] && Carries(c, g, added[k])
    {
    }
  }

  lemma ShownIsGuarded(ms: seq<Mount>, m: Mount, dir: string, x: Source)
    requires Shown(m.line, dir)
    ensures AddsGuarded(ms, [m], dir, x)
  {
    hide Shown, Under;
  }

  lemma StepProtected(s: State, a: Action, s': State, x: Source)
    requires Next(s, a, s') && Anchored(s) && Ready(s) && Aimed(s)
    requires a.EnsureDir? && a.ok ==> a.selfBind != [] && Shown(a.selfBind[0].line, s.dir)
    ensures AddsGuarded(s.mounts, Mounted(a), s.dir, x)
  {
    hide Next, Shown, Under, Aimed, Ready, AddsGuarded, IsAnchor;
    WhereMounted(s, a, s');
    if a.DoMount? {
      var g :| g in s.mounts && IsAnchor(g, s.dir);
      AnchorGuards(s.mounts, a.mounts, g, s.dir, x);
    } else if a.EnsureDir? && a.selfBind != [] {
      assert a.selfBind == [a.selfBind[0]];
      ShownIsGuarded(s.mounts, a.selfBind[0], s.dir, x);
    } else {
      NothingAdded(s.mounts, s.dir, x);
    }
  }

  lemma NothingAdded(ms: seq<Mount>, dir: string, x: Source)
    ensures AddsGuarded(ms, [], dir, x)
  {
  }

  /** With the self-bind in place the path of the source does not matter: whatever is staged
      goes when the directory's own mount is detached, and while that is listed nothing is
      deleted. */
  lemma SelfBindProtects(run: seq<State>, actions: seq<Action>, x: Source)
    requires BoundRun(run, actions) && Guarded(run[0].mounts, run[0].dir, x)
    ensures SparingRun(run, actions, x)
  {
    forall i | 0 <= i < |actions|
      ensures AddsGuarded(run[i].mounts, Mounted(actions[i]), run[0].dir, x)
    {
      hide Next, Anchored, Ready, Aimed, Shown, AddsGuarded, Mounted, Inv;
      RunInv(run, actions, i);
      RunAnchored(run, actions, i);
      RunStep(run, actions, i);
      Holder(run[i]);
      StepProtected(run[i], actions[i], run[i + 1], x);
    }
    SparingRunIs(run, actions, x);
  }

  // ---- Closing one pin ----

  lemma {:induction false} DecimalDigits(n: nat)
    ensures forall c :: c in Decimal(n) ==> '0' <= c <= '9'
  {
    if n >= 10 {
      DecimalDigits(n / 10);
    }
  }

  lemma DecimalPlain(n: nat)
    ensures PlainName(Decimal(n))
  {
    DecimalDigits(n);
    hide Decimal;
    assert Decimal(n)[0] in Decimal(n);
  }

  /** Two different staged paths have nothing below them in common. */
  lemma TargetsApart(dir: string, k: nat, n: nat, p: string)
    requires Target(dir, k) != Target(dir, n) && Under(Target(dir, k), p)
    ensures !Under(Target(dir, n), p)
  {
    DecimalPlain(k);
    DecimalPlain(n);
    assert Target(dir, k) == JobDir(dir, Decimal(k)) && Target(dir, n) == JobDir(dir, Decimal(n));
    hide Decimal, Under;
    JobsApart(dir, Decimal(k), Decimal(n), p);
  }

  lemma BoundIsRooted(ms: seq<Mount>, added: seq<Mount>, p: string)
    requires BoundAt(added, p)
    ensures AddsCarried(ms, added, Rooted(p))
  {
    hide Under;
    forall k | 0 <= k < |added| && Concerns(Rooted(p), added[k])
      ensures exists g :: g in ms + added[..k] && Carries(Rooted(p), g, added[k])
    {
      assert k > 0 && added[..k][0] == added[0];
      assert added[0] in ms + added[..k] && Carries(Rooted(p), added[0], added[k]);
    }
  }

  /** What is bound at one path does not concern another. */
  lemma BoundElsewhere(ms: seq<Mount>, added: seq<Mount>, p: string, x: string)
    requires BoundAt(added, p) && forall q :: Under(p, q) ==> !Under(x, q)
    ensures AddsCarried(ms, added, Rooted(x))
  {
    hide Under;
    forall k | 0 <= k < |added|
      ensures !Concerns(Rooted(x), added[k])
    {
      assert added[k] in added;
    }
  }

  /** Whatever is mounted below a staged path is mounted on the pin there. */
  lemma StepRooted(s: State, a: Action, s': State, n: nat)
    requires Next(s, a, s') && Aimed(s)
    ensures AddsCarried(s.mounts, Mounted(a), Rooted(Target(s.dir, n)))
  {
    hide Listing, Peeled, AtOrBelow, Wrap, Target, Under, Sources, ValidTable, Stacked, BoundAt;
    var x := Target(s.dir, n);
    if a.DoMount? && a.ok {
      var y := PcOf(s, a.t).target;
      assert IsTarget(s.dir, y);
      var k :| y == Target(s.dir, k);
      if y == x {
        BoundIsRooted(s.mounts, a.mounts, x);
      } else {
        forall q | Under(y, q)
          ensures !Under(x, q)
        {
          TargetsApart(s.dir, k, n, q);
        }
        BoundElsewhere(s.mounts, a.mounts, y, x);
      }
    } else if a.EnsureDir? && a.selfBind != [] {
      SelfBindApart(s.dir, a.selfBind, n);
      assert AddsCarried(s.mounts, a.selfBind, Rooted(x));
    }
  }

  lemma SelfBindApart(dir: string, selfBind: seq<Mount>, n: nat)
    requires BoundAt(selfBind, dir) && |selfBind| == 1
    ensures forall k :: 0 <= k < |selfBind| ==> !Concerns(Rooted(Target(dir, n)), selfBind[k])
  {
    TargetBelow(dir, n);
    if Under(Target(dir, n), dir) && dir != Target(dir, n) {
      BelowIsLonger(Target(dir, n), dir);
    }
  }

  /** At first nothing is mounted below a path that stage will make up without something
      mounted at it: if, for one, nothing is mounted at or below the directory at all. */
  ghost predicate RootedStart(s: State) {
    forall n: nat :: Carried(s.mounts, Rooted(Target(s.dir, n)))
  }

  lemma {:induction false} FreeIsRooted(ms: seq<Mount>, dir: string, n: nat)
    requires Free(ms, dir)
    ensures Carried(ms, Rooted(Target(dir, n)))
  {
    TargetBelow(dir, n);
    if ms != [] {
      var init, m := ms[..|ms| - 1], ms[|ms| - 1];
      assert m in ms && forall x :: x in init ==> x in ms;
      FreeIsRooted(init, dir, n);
      if Under(Target(dir, n), m.line.point) {
        UnderTrans(dir, Target(dir, n), m.line.point);
      }
    }
  }

  lemma RunRooted(run: seq<State>, actions: seq<Action>, n: nat)
    requires Run(run, actions) && |run| > 0 && RootedStart(run[0])
    ensures CarriedRun(run, actions, Rooted(Target(run[0].dir, n)))
  {
    var c := Rooted(Target(run[0].dir, n));
    TargetBelow(run[0].dir, n);
    forall i | 0 <= i < |actions|
      ensures AddsCarried(run[i].mounts, Mounted(actions[i]), c)
    {
      hide Next, AddsCarried, Mounted, Inv, Aimed, Target;
      RunInv(run, actions, i);
      RunStep(run, actions, i);
      Holder(run[i]);
      StepRooted(run[i], actions[i], run[i + 1], n);
    }
  }

  lemma {:induction false} RootlessIsFree(ms: seq<Mount>, x: string)
    requires Carried(ms, Rooted(x)) && forall m :: m in ms ==> m.line.point != x
    ensures Free(ms, x)
  {
    hide Under;
    if ms != [] {
      var init, m := ms[..|ms| - 1], ms[|ms| - 1];
      assert ms == init + [m] && m in ms;
      assert forall g :: g in init ==> g in ms;
      RootlessIsFree(init, x);
    }
  }

  lemma RemovesAimed(s: State, a: Action, s': State)
    requires Next(s, a, s') && Aimed(s) && a.RemoveTarget? && a.ok
    ensures PcOf(s, a.t).Detached? && IsTarget(s.dir, PcOf(s, a.t).target)
    ensures Stacked(s.mounts, PcOf(s, a.t).target) == 0
  {
    hide IsTarget, Stacked;
  }

  /** In every interleaving, and whatever the sources are called, the mountpoint of a closed
      pin is removed only while nothing is mounted at it or below it. */
  lemma TargetRemovedBare(run: seq<State>, actions: seq<Action>, i: nat)
    requires Run(run, actions) && i < |actions| && RootedStart(run[0])
    requires actions[i].RemoveTarget? && actions[i].ok
    ensures |run| > i && PcOf(run[i], actions[i].t).Detached?
    ensures Free(run[i].mounts, PcOf(run[i], actions[i].t).target)
  {
    RunLength(run, actions);
    hide Run, Next, RootedStart, Inv, Target, Carried, CarriedRun, Free, Stacked, Aimed;
    RunInv(run, actions, i);
    RunStep(run, actions, i);
    Holder(run[i]);
    RemovesAimed(run[i], actions[i], run[i + 1]);
    var x := PcOf(run[i], actions[i].t).target;
    var n :| x == Target(run[i].dir, n);
    RunRooted(run, actions, n);
    RunCarried(run, actions, Rooted(x), i);
    StackedZero(run[i].mounts, x);
    RootlessIsFree(run[i].mounts, x);
  }

  /** A staged path lies below the staging directory. */
  lemma TargetBelow(dir: string, n: nat)
    ensures |Target(dir, n)| > |dir| && Under(dir, dir) && Under(dir, Target(dir, n))
  {
    hide Decimal;
  }
}
