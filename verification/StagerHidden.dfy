/** The other half of StagerRemoval: a mount that is neither shown nor mounted on something
    that is can be deleted through, from any state in which a pin can be staged. */
module StagerHidden {
  import opened Text
  import MountPath
  import opened MountTable
  import opened Stager
  import opened StagerRemoval

  // ---- What detaching the listed points leaves, if every detach succeeds ----

  /** What detachMount leaves: it detaches at `p` up to `n` times. */
  function DetachTimes(ms: seq<Mount>, p: string, n: nat): seq<Mount>
    decreases n
  {
    if n == 0 || Stacked(ms, p) == 0 then ms else DetachTimes(Peel(ms, p), p, n - 1)
  }

  /** What the loop over the points leaves. */
  function DetachPoints(ms: seq<Mount>, points: seq<string>): seq<Mount> {
    if points == [] then ms
    else DetachTimes(DetachPoints(ms, points[..|points| - 1]), points[|points| - 1], MAX_STACKED)
  }

  const MAX_STACKED: nat := 16

  lemma {:induction false} PeelCounts(ms: seq<Mount>, mp: string, p: string)
    ensures Stacked(Peel(ms, mp), p) <= Stacked(ms, p)
    ensures p == mp && Stacked(ms, mp) > 0 ==> Stacked(Peel(ms, mp), mp) == Stacked(ms, mp) - 1
  {
    if ms != [] {
      var init, m := ms[..|ms| - 1], ms[|ms| - 1];
      PeelCounts(init, mp, p);
      var rest := Peel(init, mp);
      assert (rest + [m])[..|rest|] == rest;
    }
  }

  /** What the detaching of some points does to a table: it is peeled, nothing gets higher, and
      `m`, which lies at or below none of them, stays. */
  ghost predicate Thinner(ms: seq<Mount>, left: seq<Mount>, dir: string, m: Mount) {
    Peeled(ms, left, dir) && (forall p :: Stacked(left, p) <= Stacked(ms, p)) && (m in ms ==> m in left)
  }

  lemma ThinnerMore(ms: seq<Mount>, ms': seq<Mount>, ms'': seq<Mount>, dir: string, mp: string, m: Mount)
    requires Thinner(ms, ms', dir, m) && Thinner(ms', ms'', mp, m) && Under(dir, mp)
    ensures Thinner(ms, ms'', dir, m)
  {
    hide Peeled, Stacked, Under;
    PeeledMore(ms, ms', ms'', dir, mp);
    forall p
      ensures Stacked(ms'', p) <= Stacked(ms, p)
    {
      assert Stacked(ms'', p) <= Stacked(ms', p) <= Stacked(ms, p);
    }
  }

  lemma ThinnerNone(ms: seq<Mount>, dir: string, m: Mount)
    ensures Thinner(ms, ms, dir, m)
  {
    hide Peeled, Stacked;
    PeeledNone(ms, dir);
  }

  lemma ThinnerOnce(ms: seq<Mount>, p: string, m: Mount)
    requires Stacked(ms, p) > 0 && !Under(p, m.line.point)
    ensures Thinner(ms, Peel(ms, p), p, m)
  {
    hide Peeled, Stacked, Peel, Under;
    PeeledOnce(ms, p);
    forall q
      ensures Stacked(Peel(ms, p), q) <= Stacked(ms, q)
    {
      PeelCounts(ms, p, q);
    }
    if m in ms {
      PeelKeeps(ms, p, m);
    }
  }

  lemma {:induction false} DetachTimesClears(ms: seq<Mount>, p: string, n: nat, m: Mount)
    requires !Under(p, m.line.point)
    ensures Thinner(ms, DetachTimes(ms, p, n), p, m)
    ensures Stacked(ms, p) <= n ==> Stacked(DetachTimes(ms, p, n), p) == 0
    decreases n
  {
    hide Thinner, Stacked, Peel, Under;
    ThinnerNone(ms, p, m);
    if n > 0 && Stacked(ms, p) > 0 {
      var next := Peel(ms, p);
      PeelCounts(ms, p, p);
      ThinnerOnce(ms, p, m);
      DetachTimesClears(next, p, n - 1, m);
      assert Under(p, p) by { UnderSelf(p); }
      ThinnerMore(ms, next, DetachTimes(next, p, n - 1), p, p, m);
    }
  }

  lemma Stays(ms: seq<Mount>, left: seq<Mount>, dir: string, m: Mount, p: string)
    requires Thinner(ms, left, dir, m)
    ensures Stacked(left, p) <= Stacked(ms, p)
  {
  }

  lemma {:induction false} DetachPointsClears(ms: seq<Mount>, points: seq<string>, dir: string, m: Mount)
    requires forall p :: p in points ==> Under(dir, p) && !Under(p, m.line.point) && Stacked(ms, p) <= MAX_STACKED
    ensures Thinner(ms, DetachPoints(ms, points), dir, m)
    ensures forall p :: p in points ==> Stacked(DetachPoints(ms, points), p) == 0
  {
    hide Thinner, Stacked, Under, DetachTimes;
    if points == [] {
      ThinnerNone(ms, dir, m);
    } else {
      var init, p := points[..|points| - 1], points[|points| - 1];
      assert points == init + [p];
      DetachPointsClears(ms, init, dir, m);
      var before := DetachPoints(ms, init);
      var left := DetachTimes(before, p, MAX_STACKED);
      Stays(ms, before, dir, m, p);
      DetachTimesClears(before, p, MAX_STACKED, m);
      ThinnerMore(ms, before, left, dir, p, m);
      forall q | q in points
        ensures Stacked(left, q) == 0
      {
        Stays(before, left, p, m, q);
      }
    }
  }

  // ---- What the second listing then finds ----

  /** No line that is listed is taken for a mount at another point. */
  predicate Faithful(ms: seq<Mount>, dir: string) {
    forall m :: m in ms && MountPath.ValidLine(m.line) && Under(dir, MountPath.ParsedPoint(m.line)) ==>
      MountPath.ParsedPoint(m.line) == m.line.point
  }

  lemma {:induction false} ListingIs(ms: seq<Mount>, dir: string, p: string)
    requires ValidTable(ms)
    ensures p in Listing(ms, dir) <==>
              Under(dir, p) && exists m :: m in ms && MountPath.ParsedPoint(m.line) == p
  {
    hide Under, MountPath.ParsedPoint;
    if ms != [] {
      var init, m := ms[..|ms| - 1], ms[|ms| - 1];
      assert ms == init + [m];
      ListingIs(init, dir, p);
    }
  }

  lemma NothingListed(ms: seq<Mount>, left: seq<Mount>, dir: string)
    requires ValidTable(ms) && ValidTable(left) && Faithful(ms, dir) && forall m :: m in left ==> m in ms
    requires forall p :: p in Listing(ms, dir) ==> Stacked(left, p) == 0
    ensures Listing(left, dir) == []
  {
    hide Under, MountPath.ParsedPoint, Listing, Stacked, MountPath.ValidLine;
    if Listing(left, dir) != [] {
      var p := Listing(left, dir)[0];
      ListingIs(left, dir, p);
      ListingIs(ms, dir, p);
      var m :| m in left && MountPath.ParsedPoint(m.line) == p;
      StackedZero(left, p);
      assert false;
    }
  }

  /** A mount with no guard lies at or below no point that is listed. */
  lemma ListedApart(ms: seq<Mount>, m: Mount, dir: string, p: string)
    requires ValidTable(ms) && MountPath.ValidLine(m.line) && Faithful(ms, dir) && Under(dir, m.line.point)
    requires !AddsGuarded(ms, [m], dir, m.source) && p in Listing(ms + [m], dir)
    ensures Under(dir, p) && !Under(p, m.line.point) && p in Listing(ms, dir)
  {
    var c := Seen(dir, m.source);
    assert !Shown(m.line, dir) && forall g :: g in ms ==> !Guards(g, m, dir) by {
      assert [m][..0] == [] && ms + [] == ms;
    }
    hide Under, Shown, MountPath.ParsedPoint, Listing, AddsCarried, MountPath.ValidLine;
    assert ValidTable(ms + [m]);
    ListingIs(ms + [m], dir, p);
    var g :| g in ms + [m] && MountPath.ParsedPoint(g.line) == p;
    ParsedStaysUnder(m.line, dir);
    assert g in ms;
    ListingIs(ms, dir, p);
    ParsedStaysUnder(g.line, dir);
    assert !Guards(g, m, dir);
  }

  /** So it survives the detaching of all listed points, after which nothing is listed. */
  lemma HiddenSurvives(ms: seq<Mount>, m: Mount, dir: string, points: seq<string>)
    requires ValidTable(ms) && MountPath.ValidLine(m.line) && Faithful(ms, dir) && Under(dir, m.line.point)
    requires !AddsGuarded(ms, [m], dir, m.source) && multiset(points) == multiset(Listing(ms + [m], dir))
    requires forall p :: p in points ==> Stacked(ms + [m], p) <= MAX_STACKED
    ensures var left := DetachPoints(ms + [m], points);
            && Peeled(ms + [m], left, dir) && ValidTable(left) && m in left && Listing(left, dir) == []
  {
    var all := ms + [m];
    var left := DetachPoints(all, points);
    hide Under, AddsGuarded, Listing, Stacked, DetachPoints, MountPath.ParsedPoint;
    forall p | p in points
      ensures Under(dir, p) && !Under(p, m.line.point)
    {
      assert p in multiset(points);
      ListedApart(ms, m, dir, p);
    }
    DetachPointsClears(all, points, dir, m);
    PeeledTrims(all, left, dir);
    forall p | p in Listing(all, dir)
      ensures Stacked(left, p) == 0
    {
      assert p in multiset(points);
    }
    FaithfulStill(ms, m, dir);
    NothingListed(all, left, dir);
  }

  lemma FaithfulStill(ms: seq<Mount>, m: Mount, dir: string)
    requires Faithful(ms, dir) && MountPath.ValidLine(m.line) && Under(dir, m.line.point)
    requires !AddsGuarded(ms, [m], dir, m.source)
    ensures Faithful(ms + [m], dir)
  {
    assert !Shown(m.line, dir) by {
      assert [m][..0] == [];
    }
    ParsedStaysUnder(m.line, dir);
  }

  // ---- The run ----

  /** A thread enters a stager that is ready, to stage a pin. */
  ghost predicate EntersReady(s: State, t: Tid, s': State) {
    exists s1 :: Next(s, Call(t, Stage), s1) && Next(s1, Acquire(t, false), s')
  }

  /** A thread enters to stage the first pin, makes the directory, and fails to bind it onto
      itself. */
  ghost predicate EntersUnbound(s: State, t: Tid, s': State) {
    exists s1, s2 ::
      Next(s, Call(t, Stage), s1) && Next(s1, Acquire(t, false), s2) && Next(s2, EnsureDir(t, true, true, []), s')
  }

  /** It mounts the pin as `m`. */
  ghost predicate MountsPin(s: State, t: Tid, m: Mount, s': State) {
    exists s1, s2 ::
      Next(s, Create(t, true), s1) && Next(s1, DoMount(t, true, false, [m]), s2) && Next(s2, Release(t), s')
  }

  /** It tears the stager down, detaching all that is listed, in the order of `points`. */
  ghost predicate TearsDown(s: State, t: Tid, points: seq<string>, s': State)
    requires ValidTable(s.mounts)
  {
    exists s1, s2, s3, s4, kept ::
      && multiset(points) == multiset(Listing(s.mounts, s.dir))
      && Next(s, Call(t, Teardown), s1) && Next(s1, Acquire(t, true), s2)
      && Next(s2, Detach(t, DetachPoints(s.mounts, points)), s3) && Next(s3, Check(t, true), s4)
      && Next(s4, RemoveTree(t, kept), s')
  }

  lemma EnterReadyWorks(s: State, t: Tid) returns (s': State)
    requires s.mu == None && s.ready && !s.closed && PcOf(s, t) == Away
    ensures EntersReady(s, t, s') && PcOf(s', t) == Staging
    ensures s'.mounts == s.mounts && s'.entries == s.entries && s'.ready
    ensures s'.dir == s.dir && s'.counter == s.counter && s'.destroyed == s.destroyed
  {
    var s1 := At(s, t, Waiting(Stage));
    s' := At(s1.(mu := Some(t)), t, Staging);
    assert Next(s, Call(t, Stage), s1);
    assert Next(s1, Acquire(t, false), s');
  }

  lemma EnterWorks(s: State, t: Tid) returns (s': State)
    requires s.mu == None && !s.ready && !s.closed && PcOf(s, t) == Away
    ensures EntersUnbound(s, t, s') && PcOf(s', t) == Staging
    ensures s'.mounts == s.mounts && s'.entries == s.entries + {s.dir} && s'.ready
    ensures s'.dir == s.dir && s'.counter == s.counter && s'.destroyed == s.destroyed
  {
    var s1 := At(s, t, Waiting(Stage));
    var s2 := At(s1.(mu := Some(t)), t, Staging);
    s' := s2.(ready := true, entries := s2.entries + {s.dir}, mounts := s.mounts + []);
    assert s.mounts + [] == s.mounts;
    assert Next(s, Call(t, Stage), s1);
    assert Next(s1, Acquire(t, false), s2);
    assert Next(s2, EnsureDir(t, true, true, []), s');
  }

  lemma MountWorks(s: State, t: Tid, m: Mount, target: string) returns (s': State)
    requires PcOf(s, t) == Staging && s.ready && target !in s.entries
    requires target == Target(s.dir, Wrap(s.counter + 1)) && BoundAt([m], target)
    ensures MountsPin(s, t, m, s') && PcOf(s', t) == Away
    ensures s'.mounts == s.mounts + [m] && s'.mu == None
    ensures s'.dir == s.dir && s'.ready && s'.destroyed == s.destroyed
  {
    hide Wrap, Target, BoundAt;
    var made := s.(counter := Wrap(s.counter + 1), attempts := s.attempts + 1, entries := s.entries + {target});
    var s1 := At(made, t, Made(target));
    var s2 := At(s1.(mounts := s.mounts + [m], staged := s.staged + [target], serials := s.serials + [s1.attempts]),
                 t, Leaving);
    s' := At(s2.(mu := None), t, Away);
    assert Next(s, Create(t, true), s1);
    assert Next(s1, DoMount(t, true, false, [m]), s2);
    assert Next(s2, Release(t), s');
  }

  lemma TeardownDeletes(s: State, t: Tid, points: seq<string>) returns (s': State)
    requires s.mu == None && s.ready && PcOf(s, t) == Away && ValidTable(s.mounts)
    requires multiset(points) == multiset(Listing(s.mounts, s.dir))
    requires var left := DetachPoints(s.mounts, points);
             Peeled(s.mounts, left, s.dir) && ValidTable(left) && Listing(left, s.dir) == []
    ensures TearsDown(s, t, points, s')
    ensures s'.destroyed == s.destroyed + Sources(DetachPoints(s.mounts, points), s.dir)
  {
    hide Listing, Under, ValidTable, Sources, Peeled, DetachPoints;
    var left := DetachPoints(s.mounts, points);
    var s1 := At(s, t, Waiting(Op.Teardown));
    var s2 := At(s1.(mu := Some(t), ready := false, closed := true), t, Tearing);
    var s3 := s2.(mounts := left);
    var s4 := At(s3, t, Torn);
    var kept := set e | e in s.entries && !Under(s.dir, e);
    s' := At(s4.(entries := kept, destroyed := s.destroyed + Sources(left, s.dir)), t, Leaving);
    assert Next(s, Call(t, Op.Teardown), s1);
    assert Next(s1, Acquire(t, true), s2);
    assert Next(s2, Detach(t, left), s3);
    assert Next(s3, Check(t, true), s4);
    assert Next(s4, RemoveTree(t, kept), s');
  }

  /** `m` can be mounted at the next path, nothing it would lie on is shown, and teardown will
      get through: it is not misled by other lines, and nothing is stacked too high. */
  ghost predicate Exposed(s: State, m: Mount, target: string, points: seq<string>) {
    && ValidTable(s.mounts) && target == Target(s.dir, Wrap(s.counter + 1)) && BoundAt([m], target)
    && ValidTable(s.mounts + [m])
    && !AddsGuarded(s.mounts, [m], s.dir, m.source)
    && Faithful(s.mounts, s.dir) && (forall p :: p in points ==> Stacked(s.mounts + [m], p) <= MAX_STACKED)
    && multiset(points) == multiset(Listing(s.mounts + [m], s.dir))
  }

  lemma BoundBelow(dir: string, n: nat, m: Mount)
    requires BoundAt([m], Target(dir, n))
    ensures Under(dir, m.line.point) && MountPath.ValidLine(m.line) && m.line.point == Target(dir, n)
    ensures Target(dir, n) != dir
  {
    hide Target, Under, MountPath.ValidLine;
    TargetBelow(dir, n);
    assert m in [m];
  }

  lemma SourceIn(ms: seq<Mount>, m: Mount, dir: string)
    requires m in ms && Under(dir, m.line.point)
    ensures m.source in Sources(ms, dir)
  {
  }

  lemma ExposedSurvives(s: State, m: Mount, target: string, points: seq<string>)
    requires Exposed(s, m, target, points)
    ensures var left := DetachPoints(s.mounts + [m], points);
            && ValidTable(s.mounts + [m]) && multiset(points) == multiset(Listing(s.mounts + [m], s.dir))
            && Peeled(s.mounts + [m], left, s.dir) && ValidTable(left) && Listing(left, s.dir) == []
            && m.source in Sources(left, s.dir)
    ensures BoundAt([m], target) && target == Target(s.dir, Wrap(s.counter + 1))
  {
    hide Wrap, Target, Listing, Under, AddsGuarded, DetachPoints, Stacked, Faithful, ValidTable, BoundAt,
      Peeled, Sources;
    BoundBelow(s.dir, Wrap(s.counter + 1), m);
    HiddenSurvives(s.mounts, m, s.dir, points);
    SourceIn(DetachPoints(s.mounts + [m], points), m, s.dir);
  }

  lemma ThenDeleted(s: State, t: Tid, m: Mount, target: string, points: seq<string>) returns (s1: State, s2: State)
    requires PcOf(s, t) == Staging && s.ready && target !in s.entries && Exposed(s, m, target, points)
    ensures MountsPin(s, t, m, s1) && ValidTable(s1.mounts) && TearsDown(s1, t, points, s2)
    ensures m.source in s2.destroyed
    ensures s2.destroyed == s.destroyed + Sources(DetachPoints(s.mounts + [m], points), s.dir)
  {
    hide *;
    ExposedSurvives(s, m, target, points);
    s1 := MountWorks(s, t, m, target);
    s2 := TeardownDeletes(s1, t, points);
  }

  /** From any state in which the stager is ready and idle: a mount that is not shown and lies
      on nothing that is, once staged, is deleted through by the next teardown. */
  lemma HiddenMountIsDeleted(s: State, t: Tid, m: Mount, target: string, points: seq<string>)
      returns (s1: State, s2: State, s3: State)
    requires s.mu == None && s.ready && !s.closed && PcOf(s, t) == Away && target !in s.entries
    requires Exposed(s, m, target, points)
    ensures EntersReady(s, t, s1) && MountsPin(s1, t, m, s2) && ValidTable(s2.mounts) && TearsDown(s2, t, points, s3)
    ensures m.source in s3.destroyed
  {
    s1 := EnterReadyWorks(s, t);
    hide *;
    ExposedThere(s, s1, m, target, points);
    s2, s3 := ThenDeleted(s1, t, m, target, points);
  }

  lemma ExposedThere(s: State, s': State, m: Mount, target: string, points: seq<string>)
    requires Exposed(s, m, target, points) && s'.mounts == s.mounts && s'.dir == s.dir && s'.counter == s.counter
    ensures Exposed(s', m, target, points)
  {
  }

  /** And from the start, on any host with nothing mounted or made below the directory, if the
      directory could not be bound onto itself. */
  lemma FirstHiddenIsDeleted(s: State, t: Tid, m: Mount, target: string) returns (s1: State, s2: State, s3: State)
    requires Init(s) && Free(s.mounts, s.dir) && Listing(s.mounts, s.dir) == []
    requires forall e :: e in s.entries ==> !Under(s.dir, e)
    requires target == Target(s.dir, Wrap(s.counter + 1)) && BoundAt([m], target) && !Shown(m.line, s.dir)
    ensures EntersUnbound(s, t, s1) && MountsPin(s1, t, m, s2) && ValidTable(s2.mounts) && TearsDown(s2, t, [], s3)
    ensures s3.destroyed == {m.source}
  {
    hide *;
    FirstExposed(s, m, target);
    Starting(s);
    s1 := EnterWorks(s, t);
    ExposedThere(s, s1, m, target, []);
    s2, s3 := ThenDeleted(s1, t, m, target, []);
    NonePeeled(s.mounts + [m]);
  }

  lemma NonePeeled(ms: seq<Mount>)
    ensures DetachPoints(ms, []) == ms
  {
  }

  lemma Starting(s: State)
    requires Init(s)
    ensures s.mu == None && !s.ready && !s.closed && s.destroyed == {} && forall t :: PcOf(s, t) == Away
  {
  }

  lemma HiddenStaysHidden(ms: seq<Mount>, m: Mount, dir: string)
    requires ValidTable(ms) && MountPath.ValidLine(m.line) && Under(dir, m.line.point) && !Shown(m.line, dir)
    requires Free(ms, dir) && Listing(ms, dir) == []
    ensures ValidTable(ms + [m]) && Listing(ms + [m], dir) == [] && Sources(ms + [m], dir) == {m.source}
  {
    ParsedStaysUnder(m.line, dir);
    hide Under, MountPath.ParsedPoint, Shown, MountPath.ValidLine;
    assert (ms + [m])[..|ms|] == ms;
    assert m in ms + [m];
  }

  lemma NothingGuards(ms: seq<Mount>, m: Mount, dir: string)
    requires Free(ms, dir) && Under(dir, m.line.point) && !Shown(m.line, dir)
    ensures !AddsGuarded(ms, [m], dir, m.source)
  {
    hide Under, Shown;
    assert [m][..0] == [] && ms + [] == ms;
    assert Concerns(Seen(dir, m.source), [m][0]);
  }

  lemma UnlistedIsFaithful(ms: seq<Mount>, dir: string)
    requires ValidTable(ms) && Listing(ms, dir) == []
    ensures Faithful(ms, dir)
  {
    hide Under, MountPath.ParsedPoint, MountPath.ValidLine, Listing;
    forall m | m in ms
      ensures !Under(dir, MountPath.ParsedPoint(m.line))
    {
      ListingIs(ms, dir, MountPath.ParsedPoint(m.line));
    }
  }

  lemma FirstExposed(s: State, m: Mount, target: string)
    requires Init(s) && Free(s.mounts, s.dir) && Listing(s.mounts, s.dir) == []
    requires forall e :: e in s.entries ==> !Under(s.dir, e)
    requires target == Target(s.dir, Wrap(s.counter + 1)) && BoundAt([m], target) && !Shown(m.line, s.dir)
    ensures Exposed(s, m, target, []) && target !in s.entries + {s.dir}
    ensures Sources(s.mounts + [m], s.dir) == {m.source}
  {
    hide Wrap, Target, Listing, Under, Shown, AddsGuarded, Stacked, Faithful, ValidTable, Free, BoundAt, Sources;
    BoundBelow(s.dir, Wrap(s.counter + 1), m);
    HiddenStaysHidden(s.mounts, m, s.dir);
    NothingGuards(s.mounts, m, s.dir);
    UnlistedIsFaithful(s.mounts, s.dir);
  }

  /** The mount of a directory called a, carriage return, b, of a job's root file system. */
  function OddMount(target: string, source: Source): Mount {
    Mount(MountPath.Line("36", "25", "0:31", "/a" + ['\r'] + "b", target, "rw"), source)
  }

  lemma PlainWord(s: string)
    requires s != [] && forall c :: c in s ==> '/' <= c <= 'z' && c != '\\'
    ensures MountPath.Word(s) && '\\' !in s
  {
  }

  lemma OddMountHidden(dir: string, target: string, source: Source)
    requires MountPath.IsPath(dir) && MountPath.IsPath(target)
    ensures BoundAt([OddMount(target, source)], target) && !Shown(OddMount(target, source).line, dir)
  {
    var l := OddMount(target, source).line;
    PlainWord("36"); PlainWord("25"); PlainWord("0:31"); PlainWord("rw"); PlainWord("/a"); PlainWord("b");
    MountPath.FieldsWord("rw");
    assert MountPath.IsPath(l.root) && MountPath.ValidLine(l);
    UnderSelf(target);
    assert !MountPath.IsPath("b") by { assert "b"[0] == 'b' && "/"[0] == '/'; }
    assert MountPath.Odd('\r') && l.root == "/a" + ['\r'] + "b";
    OddNameIsMissed(l, dir, "/a", '\r', "b");
  }

  /** One such source: it is deleted on every host, in every staging directory. */
  lemma CarriageReturnIsDeleted(s: State, t: Tid, source: Source) returns (s1: State, s2: State, s3: State)
    requires Init(s) && Free(s.mounts, s.dir) && Listing(s.mounts, s.dir) == [] && MountPath.IsPath(s.dir)
    requires forall e :: e in s.entries ==> !Under(s.dir, e)
    ensures EntersUnbound(s, t, s1) && MountsPin(s1, t, OddMount(Target(s.dir, 1), source), s2)
    ensures ValidTable(s2.mounts) && TearsDown(s2, t, [], s3) && s3.destroyed == {source}
  {
    var target := Target(s.dir, Wrap(s.counter + 1));
    assert MountPath.IsPath(target) && Wrap(s.counter + 1) == 1;
    OddMountHidden(s.dir, target, source);
    s1, s2, s3 := FirstHiddenIsDeleted(s, t, OddMount(target, source), target);
  }
}
