/** mountStager of pkg/dind/bindstage_linux.go as the object it is, and its place in the
    system of threads: every call, from lock to unlock, is a stretch of a run of Stager, so
    what is proved of runs holds of the object. */
module MountStager {
  import opened Text
  import opened MountTable
  import opened MountPath
  import opened Stager
  import opened StagerRemoval
  import Kernel
  import BindPin

  lemma BoundIsSeen(ms: seq<Mount>, added: seq<Mount>, p: string)
    ensures added != [] && BoundAt(added, p) ==> SourceAt(ms + added, p) == Some(added[0].source)
  {
    if added != [] && BoundAt(added, p) {
      BindShows(ms, added, p);
    }
  }

  /** The table only grew, by mounts at the directory itself or at or below `target`. */
  predicate Grown(before: seq<Mount>, after: seq<Mount>, dir: string, target: Option<string>) {
    && before <= after
    && forall k :: |before| <= k < |after| ==>
         after[k].line.point == dir || (target.Some? && Under(target.value, after[k].line.point))
  }

  lemma GrownNone(ms: seq<Mount>, dir: string)
    ensures Grown(ms, ms, dir, None)
  {
  }

  lemma TargetApart(dir: string, n: nat)
    ensures Target(dir, n) != dir && (IsPath(dir) ==> IsPath(Target(dir, n)))
  {
    TargetBelow(dir, n);
    hide Decimal;
  }

  lemma GrownMore(ms: seq<Mount>, ms': seq<Mount>, ms'': seq<Mount>, dir: string, target: Option<string>)
    requires Grown(ms, ms', dir, None) && Grown(ms', ms'', dir, target)
    ensures Grown(ms, ms'', dir, target)
  {
    hide Under;
  }

  lemma GrownBy(ms: seq<Mount>, added: seq<Mount>, dir: string, target: string)
    requires added == [] || BoundAt(added, target)
    ensures Grown(ms, ms + added, dir, if added == [] then None else Some(target))
    ensures target == dir && |added| <= 1 ==> Grown(ms, ms + added, dir, None)
  {
    hide Under;
    forall k | |ms| <= k < |ms + added|
      ensures added != [] && Under(target, (ms + added)[k].line.point)
      ensures |added| == 1 ==> (ms + added)[k].line.point == target
    {
      assert (ms + added)[k] == added[k - |ms|] && added[k - |ms|] in added;
    }
  }

  class Staging {
    const dir: string
    const table: Mounts
    /** The directory itself, as the source of its self-bind. */
    const own: Source
    var ready: bool
    var closed: bool
    /** The field seq, of type uint64. */
    var counter: nat
    /** The run of the system that led here. */
    ghost var run: seq<State>
    ghost var actions: seq<Action>
    ghost var now: State

    constructor (dir: string, table: Mounts, own: Source)
      requires table.Valid() && table.destroyed == {}
      ensures Valid() && this.dir == dir && this.table == table && !closed && !ready && counter == 0
      ensures |run| == 1 && actions == []
    {
      this.dir, this.table, this.own, ready, closed, counter := dir, table, own, false, false, 0;
      run := [State(dir, None, false, false, 0, 0, table.mounts, table.entries, map[], [], [], {})];
      actions, now := [], State(dir, None, false, false, 0, 0, table.mounts, table.entries, map[], [], [], {});
    }

    /** `now` is the last state of a run. */
    ghost predicate Recorded()
      reads this`run, this`actions, this`now
    {
      Stager.Run(run, actions) && run[|run| - 1] == now
    }

    /** The run goes on from what it was. */
    twostate predicate Extends()
      reads this`run, this`actions
    {
      old(run) <= run && old(actions) <= actions
    }

    /** The fields and the table are those of the last state of the run. */
    ghost predicate Tracks()
      reads this, table
    {
      && table.Valid() && Recorded()
      && now.dir == dir && now.ready == ready && now.closed == closed && now.counter == counter
      && now.mounts == table.mounts && now.entries == table.entries && now.destroyed == table.destroyed
    }

    /** Nobody is in a call. */
    ghost predicate Valid()
      reads this, table
    {
      Tracks() && now.mu == None && forall t :: t in now.pcs ==> now.pcs[t] == Away
    }

    /** Thread `t` is in a call, and holds the lock if it is at a place that has it. */
    ghost predicate Inside(t: Tid, pc: Pc)
      reads this, table
    {
      && Tracks() && now.mu == (if pc.Holds() then Some(t) else None) && PcOf(now, t) == pc
      && forall u :: u in now.pcs && u != t ==> now.pcs[u] == Away
    }

    ghost method Take(a: Action, s: State)
      requires Recorded() && Next(now, a, s)
      modifies this`run, this`actions, this`now
      ensures Recorded() && Extends() && now == s
    {
      run, actions, now := run + [s], actions + [a], s;
    }

    /** Take the lock; to stage, look at `closed`. */
    ghost method Enter(t: Tid, op: Op, pc: Pc)
      requires Valid() && (op.Unstage? ==> op.target in now.staged)
      requires match op
               case Stage => pc == if closed then Leaving else Staging
               case Unstage(x) => pc == Detaching(x)
               case Teardown => false
      modifies this`run, this`actions, this`now
      ensures Inside(t, pc) && Extends() && now.staged == old(now).staged
    {
      hide Recorded, Listing, Peeled, AtOrBelow, Under, ValidTable, Sources, Target, BoundAt, Wrap;
      var s := At(now, t, Waiting(op));
      Take(Call(t, op), s);
      Take(Acquire(t, false), At(s.(mu := Some(t)), t, pc));
    }

    /** Take the lock to tear down: the stager is closed from here on. */
    ghost method EnterTeardown(t: Tid, dirSeen: bool)
      requires Valid()
      modifies this`run, this`actions, this`now
      ensures Recorded() && Extends()
      ensures now == At(old(now).(mu := Some(t), ready := false, closed := true), t,
                        if ready || dirSeen then Tearing else Leaving)
    {
      hide Recorded, Listing, Peeled, AtOrBelow, Under, ValidTable, Sources, Target, BoundAt, Wrap;
      var s := At(now, t, Waiting(Op.Teardown));
      Take(Call(t, Op.Teardown), s);
      Take(Acquire(t, dirSeen), At(s.(mu := Some(t), ready := false, closed := true), t,
                                   if ready || dirSeen then Tearing else Leaving));
    }

    ghost method Leave(t: Tid)
      requires Inside(t, Leaving)
      modifies this`run, this`actions, this`now
      ensures Valid() && Extends()
      ensures now == At(old(now).(mu := None), t, Away)
    {
      Take(Release(t), At(now.(mu := None), t, Away));
    }

    /** ensureDirLocked: make the directory and bind it onto itself, the first time. */
    method EnsureDirLocked(t: Tid) returns (ok: bool)
      requires Inside(t, Staging)
      modifies this`ready, this`run, this`actions, this`now, table`entries, table`mounts
      ensures Extends() && now.staged == old(now.staged)
      ensures if ok then Inside(t, Staging) && ready else Inside(t, Leaving) && table.mounts == old(table.mounts)
      ensures old(ready) ==> ok && table.mounts == old(table.mounts) && table.entries == old(table.entries)
      ensures table.entries == old(table.entries) || table.entries == old(table.entries) + {dir}
      ensures Grown(old(table.mounts), table.mounts, dir, None)
      ensures now.attempts == old(now.attempts)
      ensures table.obliging ==> ok
      ensures table.obliging && IsPath(dir) && !old(ready) ==> SourceAt(table.mounts, dir) == Some(own)
    {
      hide Recorded, Listing, Peeled, AtOrBelow, Under, ValidTable, Sources, Stacked, Free, Target, SourceAt;
      if ready { return true; }
      ghost var s, before := now, table.mounts;
      var made, safe := table.MakeSafe(dir);
      if !safe {
        Take(EnsureDir(t, false, made, []), At(s.(entries := table.entries), t, Leaving));
        return false;
      }
      var added := table.Bind(own, dir, false);
      ready := true;
      Take(EnsureDir(t, true, true, added), s.(entries := table.entries, ready := true, mounts := table.mounts));
      BoundIsSeen(before, added, dir);
      GrownBy(before, added, dir, dir);
      ok := true;
    }

    /** stage: bind a pinned source at the next numbered path below the directory. What is
        then seen there is the inode the pin holds. */
    method Stage(t: Tid, k: Kernel.Host, p: BindPin.Pin?) returns (r: Option<string>)
      requires Valid() && (p != null ==> p.Owns(k))
      modifies this, table, if p == null then {} else {p}
      ensures Valid() && Extends() && closed == old(closed)
      ensures p == null || old(p.done) || old(closed) ==>
                r == None && table.mounts == old(table.mounts) && table.entries == old(table.entries)
      ensures r.Some? ==> p != null && p.Owns(k) && !p.done && p.fd == old(p.fd) && p.staged == r
      ensures r.Some? ==> SourceAt(table.mounts, r.value) == Some(k.open[p.fd])
      ensures r.Some? ==> counter == Wrap(old(counter) + 1) && r.value == Target(dir, counter)
      ensures r.Some? ==> r.value !in old(table.entries)
      ensures r.Some? ==> now.staged == old(now.staged) + [r.value]
      ensures Grown(old(table.mounts), table.mounts, dir, r)
      ensures table.obliging && IsPath(dir) && p != null && !old(p.done) && !old(closed) ==>
                (Target(dir, Wrap(old(counter) + 1)) !in old(table.entries) ==> r.Some?)
      ensures r.None? ==> now.staged == old(now.staged) && (p != null ==> p.staged == old(p.staged) && p.Owns(k))
    {
      hide Recorded, Listing, ValidTable, Target, SourceAt, Wrap, Under;
      if p == null || p.fd < 0 { return None; }
      r := StageSource(t, k.open[p.fd]);
      if r.Some? {
        p.staged := r;
      }
    }

    method StageSource(t: Tid, source: Source) returns (r: Option<string>)
      requires Valid()
      modifies this, table
      ensures Valid() && Extends() && closed == old(closed)
      ensures old(closed) ==> r == None && table.mounts == old(table.mounts) && table.entries == old(table.entries)
      ensures r.Some? ==> counter == Wrap(old(counter) + 1) && r.value == Target(dir, counter)
      ensures r.Some? ==> r.value !in old(table.entries)
      ensures r.Some? ==> SourceAt(table.mounts, r.value) == Some(source)
      ensures now.staged == if r.Some? then old(now.staged) + [r.value] else old(now.staged)
      ensures Grown(old(table.mounts), table.mounts, dir, r)
      ensures table.obliging && IsPath(dir) && !old(closed) ==>
                (Target(dir, Wrap(old(counter) + 1)) !in old(table.entries) ==> r.Some?)
    {
      hide Next, Recorded, Listing, Peeled, AtOrBelow, Under, ValidTable, Sources, Stacked, Free, Target,
        SourceAt, Wrap, Grown, Trimmed, Carried, Peel, BoundAt, IsPath;
      GrownNone(table.mounts, dir);
      TargetApart(dir, Wrap(counter + 1));
      Enter(t, Op.Stage, if closed then Leaving else Staging);
      if closed {
        Leave(t);
        return None;
      }
      var ok := EnsureDirLocked(t);
      if !ok {
        Leave(t);
        return None;
      }
      ghost var between := table.mounts;
      r := MountNext(t, source);
      GrownMore(old(table.mounts), between, table.mounts, dir, r);
      Leave(t);
    }

    /** The rest of stage, under the lock: number, mountpoint, mount. */
    method MountNext(t: Tid, source: Source) returns (r: Option<string>)
      requires Inside(t, Staging) && ready
      modifies this`counter, this`run, this`actions, this`now, table`mounts, table`entries
      ensures Inside(t, Leaving) && Extends() && counter == Wrap(old(counter) + 1)
      ensures r.Some? ==> r.value == Target(dir, counter) && r.value !in old(table.entries)
      ensures r.Some? ==> SourceAt(table.mounts, r.value) == Some(source)
      ensures now.staged == if r.Some? then old(now.staged) + [r.value] else old(now.staged)
      ensures Grown(old(table.mounts), table.mounts, dir, r)
      ensures table.obliging && IsPath(Target(dir, Wrap(old(counter) + 1))) ==>
                (Target(dir, Wrap(old(counter) + 1)) !in old(table.entries) ==> r.Some?)
    {
      hide Next, Wrap, BoundAt, Recorded, Listing, Peeled, AtOrBelow, Under, ValidTable, Sources, Stacked,
        Free, Target, SourceAt;
      GrownNone(table.mounts, dir);
      counter := Wrap(counter + 1);
      var target := Target(dir, counter);
      var ok := table.Make(target);
      RecordMountpoint(t, ok);
      if !ok { return None; }
      ok := MountAt(t, target, source);
      r := if ok then Some(target) else None;
    }

    /** The mount itself; if it fails the mountpoint goes again. */
    method MountAt(t: Tid, target: string, source: Source) returns (ok: bool)
      requires Inside(t, Made(target))
      modifies this`run, this`actions, this`now, table`mounts, table`entries
      ensures Inside(t, Leaving) && Extends()
      ensures ok ==> SourceAt(table.mounts, target) == Some(source)
      ensures now.staged == if ok then old(now.staged) + [target] else old(now.staged)
      ensures Grown(old(table.mounts), table.mounts, dir, if ok then Some(target) else None)
      ensures table.obliging && IsPath(target) ==> ok
      ensures !ok && table.obliging && Stacked(table.mounts, target) == 0 && Alone(old(table.entries), target) ==>
                target !in table.entries
    {
      hide Next, Wrap, BoundAt, Recorded, Listing, Peeled, AtOrBelow, Under, ValidTable, Sources, Stacked,
        Free, Target, SourceAt;
      ghost var before := table.mounts;
      var added := table.Bind(source, target, true);
      BoundIsSeen(before, added, target);
      GrownBy(before, added, dir, target);
      var removed := false;
      if added == [] {
        removed := table.Remove(target);
      }
      RecordMount(t, target, added, removed);
      ok := added != [];
    }

    ghost method RecordMountpoint(t: Tid, ok: bool)
      requires Recorded() && PcOf(now, t) == Staging && now.ready && counter == Wrap(now.counter + 1)
      requires var target := Target(now.dir, counter);
               if ok then target !in now.entries && table.entries == now.entries + {target}
                 else table.entries == now.entries
      modifies this`run, this`actions, this`now
      ensures Recorded() && Extends()
      ensures now == At(old(now).(counter := counter, attempts := old(now).attempts + 1, entries := table.entries), t,
                        if ok then Made(Target(now.dir, counter)) else Leaving)
    {
      hide Recorded, Listing, Peeled, AtOrBelow, Under, ValidTable, Sources, Target;
      Take(Create(t, ok), At(now.(counter := counter, attempts := now.attempts + 1, entries := table.entries), t,
                             if ok then Made(Target(now.dir, counter)) else Leaving));
    }

    ghost method RecordMount(t: Tid, target: string, added: seq<Mount>, removed: bool)
      requires Recorded() && PcOf(now, t) == Made(target) && (added != [] ==> BoundAt(added, target))
      requires table.mounts == now.mounts + added
      requires table.entries == if added == [] && removed then now.entries - {target} else now.entries
      modifies this`run, this`actions, this`now
      ensures Recorded() && Extends()
      ensures var s := old(now).(mounts := table.mounts, entries := table.entries, staged := now.staged,
                serials := now.serials);
              now == At(s, t, Leaving)
      ensures now.staged == if added == [] then old(now).staged else old(now).staged + [target]
    {
      hide Recorded, Listing, Peeled, AtOrBelow, Under, ValidTable, Sources, BoundAt;
      var s := now.(mounts := table.mounts, entries := table.entries);
      if added != [] {
        s := s.(staged := s.staged + [target], serials := s.serials + [s.attempts]);
      }
      Take(DoMount(t, added != [], removed, added), At(s, t, Leaving));
    }

    /** The teardown attached to a staged pin. */
    method Unstage(t: Tid, target: string) returns (ok: bool)
      requires Valid() && target in now.staged
      modifies this`run, this`actions, this`now, table`mounts, table`entries
      ensures Valid() && Extends() && now.staged == old(now.staged)
      ensures Trimmed(old(table.mounts), table.mounts, target)
      ensures table.entries == if ok then old(table.entries) - {target} else old(table.entries)
      ensures ok ==> Stacked(table.mounts, target) == 0
      ensures Releasable(table, old(table.mounts), old(table.entries), target) ==> ok
    {
      hide Next, Recorded, Listing, Peeled, AtOrBelow, Under, ValidTable, Sources, Stacked, Free, Target;
      Enter(t, Op.Unstage(target), Detaching(target));
      ok := table.UnmountAndRemove(target);
      RecordRemoval(t, target, ok);
      Leave(t);
    }

    /** Close of a pin, with the teardown that stage attached: the first call releases the path
        the pin was staged at and then its descriptor, every later one does nothing. */
    method ClosePin(t: Tid, k: Kernel.Host, p: BindPin.Pin) returns (ok: bool)
      requires Valid() && k.Valid() && p.Owns(k)
      requires !p.done && p.staged.Some? ==> p.staged.value in now.staged
      modifies this`run, this`actions, this`now, table`mounts, table`entries, p, k`open
      ensures Valid() && k.Valid() && Extends() && p.Owns(k) && p.done && p.staged == old(p.staged)
      ensures k.open == if old(p.done) then old(k.open) else old(k.open) - {old(p.fd)}
      ensures old(p.done) || p.staged.None? ==>
                ok && table.mounts == old(table.mounts) && table.entries == old(table.entries)
      ensures !old(p.done) && p.staged.Some? ==>
                (Releasable(table, old(table.mounts), old(table.entries), p.staged.value) ==> ok)
      ensures !old(p.done) && p.staged.Some? ==>
                && Trimmed(old(table.mounts), table.mounts, p.staged.value)
                && (ok ==> Stacked(table.mounts, p.staged.value) == 0)
                && table.entries == if ok then old(table.entries) - {p.staged.value} else old(table.entries)
    {
      hide Next, Recorded, Listing, Peeled, AtOrBelow, Under, ValidTable, Sources, Stacked, Target, Trimmed;
      ok := true;
      if !p.done && p.staged.Some? {
        ok := Unstage(t, p.staged.value);
      }
      p.Close(k);
    }

    /** Nothing stands in the way of releasing `target`: the table is read right there, nothing
        is mounted on the pin or lies below the mountpoint, and no more than sixteen are stacked. */
    static ghost predicate Releasable(table: Mounts, mounts: seq<Mount>, entries: set<string>, target: string) {
      && table.obliging && Legible(mounts, target) && Childless(mounts, target)
      && Stacked(mounts, target) <= 16 && Alone(entries, target)
    }

    ghost method RecordRemoval(t: Tid, target: string, ok: bool)
      requires Recorded() && PcOf(now, t) == Detaching(target) && table.Valid()
      requires Peeled(now.mounts, table.mounts, target)
      requires ok ==> Listing(table.mounts, target) == [] && Stacked(table.mounts, target) == 0
      requires table.entries == if ok then now.entries - {target} else now.entries
      modifies this`run, this`actions, this`now
      ensures Recorded() && Extends() && now == At(old(now).(mounts := table.mounts, entries := table.entries),
                t, Leaving)
    {
      hide Recorded, Listing, Peeled, AtOrBelow, Under, ValidTable, Sources, Stacked, Target;
      var s := now.(mounts := table.mounts);
      Take(Detach(t, table.mounts), s);
      if ok {
        s := At(s, t, Detached(target));
        Take(Check(t, true), s);
        Take(RemoveTarget(t, true), At(s.(entries := table.entries), t, Leaving));
      } else {
        Take(Check(t, false), At(s, t, Leaving));
      }
    }

    /** teardown: for good. If the table can be read, mounts can be detached and directories
        removed, nothing mounted and nothing made below the directory is left. */
    method Teardown(t: Tid)
      requires Valid()
      modifies this, table
      ensures Valid() && Extends() && closed && !ready
      ensures now.staged == old(now.staged)
      ensures Trimmed(old(table.mounts), table.mounts, dir)
      ensures table.obliging && Legible(old(table.mounts), dir) && (old(ready) || dir in old(table.entries)) ==>
                Free(table.mounts, dir) && forall e :: e in table.entries ==> !Under(dir, e)
    {
      hide Next, Recorded, Carried, HiddenSource, Legible, Peel, Trimmed, Listing, Peeled, AtOrBelow, Under,
        ValidTable, Sources, Stacked, Free, Target;
      var seen := dir in table.entries;
      EnterTeardown(t, seen);
      var wasReady := ready;
      ready, closed := false, true;
      if !wasReady && !seen {
        Leave(t);
        TrimmedNone(table.mounts, dir);
        return;
      }
      var ok := table.UnmountTreeAndRemove(dir);
      RecordTeardown(t);
      Leave(t);
    }

    /** The tree was not touched. */
    static predicate LeftAlone(s: State, entries: set<string>, destroyed: set<Source>) {
      entries == s.entries && destroyed == s.destroyed
    }

    /** The tree was removed, and with it what was still mounted in it unseen. */
    static predicate Removed(s: State, mounts: seq<Mount>, destroyed: set<Source>) {
      ValidTable(mounts) && Listing(mounts, s.dir) == [] && destroyed == s.destroyed + Sources(mounts, s.dir)
    }

    ghost method RecordTeardown(t: Tid)
      requires Recorded() && PcOf(now, t) == Tearing && table.Valid() && now.dir == dir
      requires Peeled(now.mounts, table.mounts, dir)
      requires table.entries <= now.entries && forall e :: e in now.entries && !Under(dir, e) ==> e in table.entries
      requires LeftAlone(now, table.entries, table.destroyed) || Removed(now, table.mounts, table.destroyed)
      modifies this`run, this`actions, this`now
      ensures Recorded() && Extends()
      ensures now == At(old(now).(mounts := table.mounts, entries := table.entries,
                destroyed := table.destroyed), t, Leaving)
    {
      hide Recorded, Listing, Peeled, AtOrBelow, Under, ValidTable, Sources, Stacked, Target;
      var s := now.(mounts := table.mounts);
      var kept := LeftAlone(now, table.entries, table.destroyed);
      Take(Detach(t, table.mounts), s);
      if kept {
        Take(Check(t, false), At(s, t, Leaving));
      } else {
        s := At(s, t, Torn);
        Take(Check(t, true), s);
        Take(RemoveTree(t, table.entries), At(s.(entries := table.entries, destroyed := table.destroyed), t, Leaving));
      }
    }

    /** So no source is deleted that was shown, or lay on something shown, whenever it was
        mounted, whatever else was. */
    lemma SourceSpared(x: Source)
      requires Valid() && SparingRun(run, actions, x)
      ensures x !in table.destroyed
    {
      SparesSource(run, actions, |run| - 1, x);
    }

    /** And nothing at all, if that holds of every source. */
    lemma NothingDestroyed()
      requires Valid() && GuardedRun(run, actions)
      ensures table.destroyed == {}
    {
      NeverDeletesThroughMount(run, actions, |run| - 1);
    }
  }
}
