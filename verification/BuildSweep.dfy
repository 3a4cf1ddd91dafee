/** Collection of build records whose job is gone (pkg/dind/buildkit_cleanup.go and the
    sweeper of cmd/ephemerd/main.go), over every schedule of jobs, writes and sweeps. */
module BuildSweep {
  import opened Text
  import opened BuildScope

  /** Seconds: DeadBuildRecordGrace, and the timeout of one sweeper pass. */
  const GRACE: nat := 900
  const PASS_LIMIT: nat := 600

  /** A record and its last write, unknown if it carries no usable time. */
  datatype BuildRecord = BuildRecord(name: string, updatedAt: Option<int>)

  function LowerAll(ids: set<string>): set<string> {
    set id | id in ids :: Lower(id)
  }

  /** Garbage: of a job, not of a live one, and known to be older than the grace. */
  predicate Dead(rec: BuildRecord, live: set<string>, now: int, grace: int) {
    && var job := BuildRecordJobID(rec.name);
    && job.Some? && job.value !in LowerAll(live)
    && rec.updatedAt.Some? && now - rec.updatedAt.value > grace
  }

  function DeadNames(records: seq<BuildRecord>, live: set<string>, now: int, grace: int): seq<string> {
    if records == [] then []
    else
      var init, last := DeadNames(records[..|records| - 1], live, now, grace), records[|records| - 1];
      if Dead(last, live, now, grace) then init + [last.name] else init
  }

  /** DeadBuildRecords: lower-case the live IDs, then filter the records in order. */
  method DeadBuildRecords(records: seq<BuildRecord>, live: set<string>, now: int, grace: int) returns (out: seq<string>)
    ensures out == DeadNames(records, live, now, grace)
  {
    var lowerLive: set<string> := {};
    var rest := live;
    while rest != {}
      invariant rest <= live && lowerLive == LowerAll(live - rest)
      decreases rest
    {
      var id :| id in rest;
      assert live - (rest - {id}) == (live - rest) + {id};
      lowerLive, rest := lowerLive + {Lower(id)}, rest - {id};
    }
    assert live - rest == live;
    out := [];
    for i := 0 to |records|
      invariant out == DeadNames(records[..i], live, now, grace)
    {
      assert records[..i + 1][..i] == records[..i];
      var rec := records[i];
      var job := BuildRecordJobID(rec.name);
      if job.None? { continue; }
      if job.value in lowerLive { continue; }
      if rec.updatedAt.None? || now - rec.updatedAt.value <= grace { continue; }
      out := out + [rec.name];
    }
    assert records[..|records|] == records;
  }

  /** Named are exactly the records of a job, none of the live ones, whose last write is known
      and longer ago than the grace. */
  lemma {:induction false} DeadNamesHas(records: seq<BuildRecord>, live: set<string>, now: int, grace: int,
      name: string)
    ensures name in DeadNames(records, live, now, grace)
            <==> BuildRecordJobID(name).Some? && (forall id :: id in live ==> Lower(id) != BuildRecordJobID(name).value)
                 && exists rec :: rec in records && rec.name == name
                                  && rec.updatedAt.Some? && now - rec.updatedAt.value > grace
  {
    hide BuildRecordJobID, Lower;
    if records != [] {
      var init, last := records[..|records| - 1], records[|records| - 1];
      DeadNamesHas(init, live, now, grace, name);
      assert records == init + [last];
    }
  }

  /** So what is not of a job, or of unknown age, is never named. */
  lemma NeverNamed(records: seq<BuildRecord>, live: set<string>, now: int, grace: int, name: string)
    ensures BuildRecordJobID(name).None? ==> name !in DeadNames(records, live, now, grace)
    ensures (forall rec :: rec in records && rec.name == name ==> rec.updatedAt.None?) ==>
              name !in DeadNames(records, live, now, grace)
  {
    DeadNamesHas(records, live, now, grace, name);
  }

  /** An image record as it is listed: written last, and made, at a time that may be missing. */
  datatype Image = Image(name: string, updatedAt: Option<int>, createdAt: Option<int>)

  /** The last write of a record, or its making if it was never written again. */
  function LastWrite(img: Image): Option<int> {
    if img.updatedAt.Some? then img.updatedAt else img.createdAt
  }

  /** Some record of this name was written last, or made if it was never written again, more
      than 15 minutes ago. */
  ghost predicate Stale(images: seq<Image>, now: int, name: string) {
    exists img, t :: img in images && img.name == name && now - t > 15 * 60
                     && (img.updatedAt == Some(t) || (img.updatedAt.None? && img.createdAt == Some(t)))
  }

  /** It is of a job, and no live ID lower-cases to that job. */
  predicate OfDeadJob(name: string, live: set<string>) {
    BuildRecordJobID(name).Some? && forall id :: id in live ==> Lower(id) != BuildRecordJobID(name).value
  }

  /** PruneDeadBuildRecords: list, decide, and delete one by one; a deletion that fails is passed
      over. Deleted is what is dead and could be deleted. */
  method PruneDeadBuildRecords(images: seq<Image>, live: set<string>, now: int, stuck: set<string>)
      returns (deleted: seq<string>)
    ensures forall name ::
              name in deleted <==> name !in stuck && OfDeadJob(name, live) && Stale(images, now, name)
  {
    hide BuildRecordJobID, Lower, Stale, LastWrite;
    var records: seq<BuildRecord> := [];
    for i := 0 to |images|
      invariant |records| == i
      invariant forall k :: 0 <= k < i ==> records[k] == BuildRecord(images[k].name, LastWrite(images[k]))
    {
      var updated := images[i].updatedAt;
      if updated.None? {
        updated := images[i].createdAt;
      }
      LastWriteIs(images[i], updated);
      records := records + [BuildRecord(images[i].name, updated)];
    }
    var dead := DeadBuildRecords(records, live, now, GRACE);
    deleted := [];
    for i := 0 to |dead|
      invariant forall name :: name in deleted <==> name in dead[..i] && name !in stuck
    {
      assert dead[..i + 1] == dead[..i] + [dead[i]];
      if dead[i] in stuck { continue; }
      deleted := deleted + [dead[i]];
    }
    assert dead[..|dead|] == dead;
    forall name
      ensures name in dead <==> OfDeadJob(name, live) && Stale(images, now, name)
    {
      SameRecords(records, images, now, name);
      DeadNamesHas(records, live, now, GRACE, name);
    }
  }

  lemma LastWriteIs(img: Image, updated: Option<int>)
    requires updated == if img.updatedAt.None? then img.createdAt else img.updatedAt
    ensures LastWrite(img) == updated
  {
  }

  lemma SameRecords(records: seq<BuildRecord>, images: seq<Image>, now: int, name: string)
    requires |records| == |images|
    requires forall k :: 0 <= k < |images| ==> records[k] == BuildRecord(images[k].name, LastWrite(images[k]))
    ensures Stale(images, now, name) <==>
              exists rec :: rec in records && rec.name == name
                            && rec.updatedAt.Some? && now - rec.updatedAt.value > GRACE
  {
    if rec :| rec in records && rec.name == name && rec.updatedAt.Some? && now - rec.updatedAt.value > GRACE {
      var k :| 0 <= k < |records| && records[k] == rec;
      var img, t := images[k], rec.updatedAt.value;
      assert img in images && (img.updatedAt == Some(t) || (img.updatedAt.None? && img.createdAt == Some(t)));
    }
    if img, t :| img in images && img.name == name && now - t > 15 * 60
                 && (img.updatedAt == Some(t) || (img.updatedAt.None? && img.createdAt == Some(t))) {
      var k :| 0 <= k < |images| && images[k] == img;
      assert records[k] in records && records[k].updatedAt == Some(t);
    }
  }

  /** CleanupJobBuildRecords: all records under the job's prefix that can be deleted, and none
      for a job without an ID. */
  method CleanupJobBuildRecords(names: seq<string>, job: string, stuck: set<string>) returns (deleted: seq<string>)
    ensures job == "" ==> deleted == []
    ensures job != "" ==> forall name :: name in deleted <==>
              name in names && name !in stuck && "build.ephemerd.local" + "/" + Lower(job) + "/" <= name
  {
    hide Lower;
    deleted := [];
    var prefix := BuildScopePrefix(job);
    if prefix == "" { return; }
    for i := 0 to |names|
      invariant forall name :: name in deleted <==> name in names[..i] && name !in stuck && prefix <= name
    {
      assert names[..i + 1] == names[..i] + [names[i]];
      if !HasPrefix(names[i], prefix) || names[i] in stuck { continue; }
      deleted := deleted + [names[i]];
    }
    assert names[..|names|] == names;
  }

  // ---- Schedules ----

  /** The sweeper: idle, in a pass, with the live set, with the listing, or deleting. */
  datatype Phase =
    | Idle
    | Passing(start: nat)
    | Captured(start: nat, at: nat, live: set<string>)
    | Listed(start: nat, at: nat, live: set<string>, records: map<string, nat>)
    | Deleting(todo: set<string>)

  datatype State = State(
    now: nat,
    /** The running jobs and when each started. */
    running: map<string, nat>,
    /** The lower-cased IDs of all jobs there have been, before this daemon too. */
    past: set<string>,
    /** The records and their last write. */
    store: map<string, nat>,
    phase: Phase)

  datatype Action =
    | Tick(seconds: nat)
    | StartJob(id: string)
    | EndJob(id: string)
    | Write(id: string, ref: string)
    | WriteUnscoped(name: string)
    | Cleanup(id: string, stuck: set<string>)
    | BeginPass
    | Capture(live: set<string>)
    | List
    | Decide
    | Delete(name: string)
    | EndPass

  predicate Next(s: State, a: Action, s': State) {
    match a
    case Tick(seconds) => s' == s.(now := s.now + seconds)
    case StartJob(id) =>
      JobId(id) && Lower(id) !in s.past
      && s' == s.(running := s.running[id := s.now], past := s.past + {Lower(id)})
    case EndJob(id) => s' == s.(running := s.running - {id})
    case Write(id, ref) =>
      id in s.running && ref != "" && s' == s.(store := s.store[ScopedBuildRef(id, ref) := s.now])
    case WriteUnscoped(name) =>
      BuildRecordJobID(name).None? && s' == s.(store := s.store[name := s.now])
    case Cleanup(id, stuck) =>
      JobId(id) && id !in s.running && Lower(id) in s.past && Lower(id) !in LowerAll(s.running.Keys)
      && s' == s.(store := map n | n in s.store && (n in stuck || !HasPrefix(n, BuildScopePrefix(id))) :: s.store[n])
    case BeginPass => s.phase.Idle? && s' == s.(phase := Passing(s.now))
    case Capture(live) =>
      s.phase.Passing? && s' == s.(phase := Captured(s.phase.start, s.now, live))
    case List =>
      s.phase.Captured? && s' == s.(phase := Listed(s.phase.start, s.phase.at, s.phase.live, s.store))
    case Decide =>
      s.phase.Listed? && s.now <= s.phase.start + PASS_LIMIT
      && s' == s.(phase := Deleting(Chosen(s.phase.records, s.phase.live, s.now)))
    case Delete(name) =>
      s.phase.Deleting? && name in s.phase.todo
      && s' == s.(store := s.store - {name}, phase := Deleting(s.phase.todo - {name}))
    case EndPass => s' == s.(phase := Idle)
  }

  /** The capture saw every running job: no namespace failed to list its containers. */
  predicate Complete(s: State, a: Action) {
    a.Capture? ==> s.running.Keys <= a.live
  }

  /** What DeadBuildRecords picks from a listing. */
  function Chosen(records: map<string, nat>, live: set<string>, now: nat): set<string> {
    set n | n in records && Dead(BuildRecord(n, Some(records[n])), live, now, GRACE)
  }

  /** The record belongs to a job that is running. */
  ghost predicate OfRunningJob(s: State, name: string) {
    exists id :: id in s.running && BuildRecordJobID(name) == Some(Lower(id))
  }

  ghost predicate Init(s: State) {
    s.running == map[] && s.phase == Idle && FromPast(s, s.store)
  }

  /** Jobs have distinct lower-cased IDs, and records only come from jobs there have been. */
  ghost predicate Known(s: State) {
    JobsKnown(s) && FromPast(s, s.store)
  }

  ghost predicate JobsKnown(s: State) {
    && (forall id :: id in s.running ==> JobId(id) && Lower(id) in s.past && s.running[id] <= s.now)
    && (forall id, id' :: id in s.running && id' in s.running && Lower(id) == Lower(id') ==> id == id')
  }

  /** Records of a running job date from after its start. */
  ghost predicate Dated(s: State, records: map<string, nat>) {
    forall n, id :: n in records && id in s.running && BuildRecordJobID(n) == Some(Lower(id)) ==>
      records[n] >= s.running[id]
  }

  /** A running job was seen by the capture or started no earlier. */
  ghost predicate Seen(s: State, at: nat, live: set<string>) {
    at <= s.now && forall id :: id in s.running ==> id in live || s.running[id] >= at
  }

  ghost predicate Inv(s: State) {
    Known(s) && Dated(s, s.store) && PhaseInv(s)
  }

  /** What the pass works on dates from when the pass says, complete or not. */
  ghost predicate PhaseInv(s: State) {
    match s.phase
    case Idle => true
    case Passing(start) => start <= s.now
    case Captured(start, at, live) => start <= at <= s.now
    case Listed(start, at, live, records) =>
      start <= at <= s.now && Dated(s, records) && FromPast(s, records)
    case Deleting(todo) => true
  }

  /** The capture of the pass under way, if there is one, saw every job it had to. */
  ghost predicate PhaseSeen(s: State) {
    (s.phase.Captured? || s.phase.Listed?) ==> Seen(s, s.phase.at, s.phase.live)
  }

  ghost predicate FromPast(s: State, records: map<string, nat>) {
    forall n :: n in records && BuildRecordJobID(n).Some? ==> BuildRecordJobID(n).value in s.past
  }

  lemma StepJobs(s: State, a: Action, s': State)
    requires Next(s, a, s') && JobsKnown(s)
    ensures JobsKnown(s') && JobsMove(s, s')
  {
    hide BuildRecordJobID, ScopedBuildRef, BuildScopePrefix, Lower, Chosen, HasPrefix, LowerAll;
  }

  lemma StepStore(s: State, a: Action, s': State)
    requires Next(s, a, s') && JobsKnown(s) && JobsMove(s, s') && Dated(s, s.store) && FromPast(s, s.store)
    ensures Dated(s', s'.store) && FromPast(s', s'.store)
  {
    hide BuildRecordJobID, ScopedBuildRef, BuildScopePrefix, Lower, Chosen, HasPrefix, LowerAll;
    ListingStays(s, s', s.store);
    if a.Write? {
      RecordNamesJob(a.id, a.ref);
    }
  }

  lemma StepKnown(s: State, a: Action, s': State)
    requires Next(s, a, s') && Inv(s)
    ensures Known(s') && Dated(s', s'.store) && JobsMove(s, s')
  {
    hide Next, JobsKnown, Dated, FromPast, JobsMove, PhaseInv;
    StepJobs(s, a, s');
    StepStore(s, a, s');
  }

  /** The running job `id` stands to lose its record `name` if the pass decides now: the
      capture missed it, though it was running then, and the record is older than the grace. */
  ghost predicate Missed(s: State, name: string, id: string) {
    && s.phase.Listed? && id in s.running && name in s.phase.records && BuildRecordJobID(name) == Some(Lower(id))
    && Lower(id) !in LowerAll(s.phase.live) && s.now - s.phase.records[name] > GRACE
    && s.running[id] < s.phase.at
  }

  /** A decision no later than the grace after the capture selects a record of a running job
      exactly if the capture missed the job and the grace since the write is over; the job
      was then running at the capture. */
  lemma DecisionExact(s: State, name: string, id: string)
    requires Inv(s) && s.phase.Listed? && s.now <= s.phase.at + GRACE
    requires id in s.running && name in s.phase.records && BuildRecordJobID(name) == Some(Lower(id))
    ensures name in Chosen(s.phase.records, s.phase.live, s.now)
            <==> Lower(id) !in LowerAll(s.phase.live) && s.now - s.phase.records[name] > GRACE
    ensures name in Chosen(s.phase.records, s.phase.live, s.now) <==> Missed(s, name, id)
  {
    hide BuildRecordJobID, Lower, LowerAll;
    assert s.phase.records[name] >= s.running[id];
  }

  /** So if the capture saw every running job, nothing selected is of a running job. */
  lemma DecisionIsSafe(s: State, name: string)
    requires Inv(s) && PhaseSeen(s) && s.phase.Listed? && s.now <= s.phase.at + GRACE
    requires name in Chosen(s.phase.records, s.phase.live, s.now)
    ensures !OfRunningJob(s, name)
  {
    if OfRunningJob(s, name) {
      var id :| id in s.running && BuildRecordJobID(name) == Some(Lower(id));
      DecisionExact(s, name, id);
      assert false;
    }
  }

  lemma StepPhase(s: State, a: Action, s': State)
    requires Next(s, a, s') && Inv(s)
    ensures PhaseInv(s')
  {
    hide BuildRecordJobID, ScopedBuildRef, BuildScopePrefix, Lower, Chosen, HasPrefix, LowerAll, FromPast,
      Dated, JobsMove;
    StepJobs(s, a, s');
    if a.List? {
      ListingStays(s, s', s.store);
    }
    if s.phase.Listed? {
      ListingStays(s, s', s.phase.records);
    }
  }

  lemma StepSeen(s: State, a: Action, s': State)
    requires Next(s, a, s') && Complete(s, a) && Inv(s) && PhaseSeen(s)
    ensures PhaseSeen(s')
  {
    hide BuildRecordJobID, ScopedBuildRef, BuildScopePrefix, Lower, Chosen, HasPrefix, LowerAll, FromPast, Dated;
  }

  /** Time passing, jobs ending and new jobs starting. */
  ghost predicate JobsMove(s: State, s': State) {
    && s.past <= s'.past
    && forall id :: id in s'.running ==>
         (id in s.running && s'.running[id] == s.running[id]) || Lower(id) !in s.past
  }

  lemma ListingStays(s: State, s': State, records: map<string, nat>)
    requires Dated(s, records) && FromPast(s, records) && JobsMove(s, s')
    ensures Dated(s', records) && FromPast(s', records)
  {
    hide BuildRecordJobID, Lower;
  }

  lemma StepInv(s: State, a: Action, s': State)
    requires Next(s, a, s') && Inv(s)
    ensures Inv(s') && JobsMove(s, s')
  {
    StepKnown(s, a, s');
    StepPhase(s, a, s');
  }

  ghost predicate Run(run: seq<State>, actions: seq<Action>) {
    && |run| == |actions| + 1 && Init(run[0])
    && forall i :: 0 <= i < |actions| ==> Next(run[i], actions[i], run[i + 1])
  }

  lemma {:induction false} RunInv(run: seq<State>, actions: seq<Action>, i: nat)
    requires Run(run, actions) && i < |run|
    ensures Inv(run[i])
  {
    if i > 0 {
      RunInv(run, actions, i - 1);
      assert Next(run[i - 1], actions[i - 1], run[i - 1 + 1]);
      StepInv(run[i - 1], actions[i - 1], run[i]);
    }
  }

  lemma RunMoves(run: seq<State>, actions: seq<Action>, i: nat)
    requires Run(run, actions) && i < |actions|
    ensures |run| == |actions| + 1 && JobsMove(run[i], run[i + 1])
  {
    RunInv(run, actions, i);
    assert Next(run[i], actions[i], run[i + 1]);
    StepInv(run[i], actions[i], run[i + 1]);
  }

  lemma {:induction false} PastGrows(run: seq<State>, actions: seq<Action>, j: nat, i: nat)
    requires Run(run, actions) && |run| == |actions| + 1 && j <= i < |run|
    ensures run[j].past <= run[i].past
    decreases i
  {
    hide Run, Lower;
    if j < i {
      PastGrows(run, actions, j, i - 1);
      RunMoves(run, actions, i - 1);
    }
  }

  /** A job that is running now, and had been heard of then, was running then. */
  lemma {:induction false} RanSince(run: seq<State>, actions: seq<Action>, j: nat, i: nat, id: string)
    requires Run(run, actions) && |run| == |actions| + 1 && j <= i < |run|
    requires id in run[i].running && Lower(id) in run[j].past
    ensures id in run[j].running && run[j].running[id] == run[i].running[id]
    decreases i
  {
    hide Run, Lower;
    if j < i {
      RunMoves(run, actions, i - 1);
      PastGrows(run, actions, j, i - 1);
      RanSince(run, actions, j, i - 1, id);
    }
  }

  /** A name about to be deleted was selected by the decision of the pass. */
  lemma {:induction false} WasChosen(run: seq<State>, actions: seq<Action>, i: nat, name: string) returns (j: nat)
    requires Run(run, actions) && i < |run| && run[i].phase.Deleting? && name in run[i].phase.todo
    ensures j < i && actions[j].Decide? && run[j].phase.Listed? && run[j].now <= run[j].phase.start + PASS_LIMIT
    ensures name in Chosen(run[j].phase.records, run[j].phase.live, run[j].now)
  {
    hide BuildRecordJobID, ScopedBuildRef, BuildScopePrefix, Lower, Chosen, HasPrefix, LowerAll;
    assert i > 0;
    assert Next(run[i - 1], actions[i - 1], run[i - 1 + 1]);
    if run[i - 1].phase.Deleting? {
      j := WasChosen(run, actions, i - 1, name);
    } else {
      j := i - 1;
    }
  }

  /** Only the deletion of a selected name takes a record of a running job away. */
  lemma WhoRemoves(s: State, a: Action, s': State, name: string, id: string)
    requires Next(s, a, s') && Inv(s) && name in s.store && name !in s'.store
    requires id in s.running && BuildRecordJobID(name) == Some(Lower(id))
    ensures a == Delete(name) && s.phase.Deleting? && name in s.phase.todo
  {
    hide ScopedBuildRef, Lower, Chosen;
    if a.Cleanup? && HasPrefix(name, BuildScopePrefix(a.id)) {
      PrefixNamesJob(a.id, name);
      assert false;
    }
  }

  /** In every schedule, whatever the captures miss: a step takes a record of a running job
      away only if the capture of that pass had missed the job, which was running then. */
  lemma LostOnlyIfMissed(run: seq<State>, actions: seq<Action>, i: nat, name: string, id: string) returns (j: nat)
    requires Run(run, actions) && i < |actions|
    requires id in run[i].running && BuildRecordJobID(name) == Some(Lower(id))
    requires name in run[i].store && name !in run[i + 1].store
    ensures j < i && actions[j].Decide? && Missed(run[j], name, id)
  {
    hide BuildRecordJobID, Lower, LowerAll, ScopedBuildRef, BuildScopePrefix, HasPrefix;
    RunInv(run, actions, i);
    assert Next(run[i], actions[i], run[i + 1]);
    WhoRemoves(run[i], actions[i], run[i + 1], name, id);
    j := WasChosen(run, actions, i, name);
    RunInv(run, actions, j);
    RanSince(run, actions, j, i, id);
    DecisionExact(run[j], name, id);
  }

  /** Conversely, wherever a pass may decide and has missed a job so, it can take the record
      away while the job runs on. */
  lemma MissedIsLost(s: State, name: string, id: string) returns (s1: State, s2: State)
    requires Missed(s, name, id) && s.now <= s.phase.start + PASS_LIMIT
    ensures Next(s, Decide, s1) && Next(s1, Delete(name), s2) && name !in s2.store && id in s2.running
  {
    s1 := s.(phase := Deleting(Chosen(s.phase.records, s.phase.live, s.now)));
    s2 := s1.(store := s1.store - {name}, phase := Deleting(s1.phase.todo - {name}));
  }

  /** A schedule in which that happens: a job builds, a quarter of an hour goes by, and a pass
      whose capture comes up empty takes the record of the running job away. */
  lemma SkippedJobLoses(s: State, id: string, ref: string) returns (run: seq<State>, actions: seq<Action>)
    requires Init(s) && JobId(id) && Lower(id) !in s.past && ref != ""
    ensures Run(run, actions) && run[0] == s && |actions| == 8
    ensures actions[..6] == [StartJob(id), Write(id, ref), Tick(GRACE + 1), BeginPass, Capture({}), List]
    ensures actions[6..] == [Decide, Delete(ScopedBuildRef(id, ref))]
    ensures ScopedBuildRef(id, ref) in run[7].store && ScopedBuildRef(id, ref) !in run[8].store
    ensures id in run[8].running && BuildRecordJobID(ScopedBuildRef(id, ref)) == Some(Lower(id))
  {
    RecordNamesJob(id, ref);
    var name := ScopedBuildRef(id, ref);
    hide BuildRecordJobID, Lower, ScopedBuildRef, BuildScopePrefix, HasPrefix;
    var s1 := s.(running := s.running[id := s.now], past := s.past + {Lower(id)});
    var s2 := s1.(store := s1.store[name := s.now]);
    var s3 := s2.(now := s.now + (GRACE + 1));
    var s4 := s3.(phase := Passing(s3.now));
    var s5 := s4.(phase := Captured(s3.now, s3.now, {}));
    var s6 := s5.(phase := Listed(s3.now, s3.now, {}, s2.store));
    var s7, s8 := MissedIsLost(s6, name, id);
    run := [s, s1, s2, s3, s4, s5, s6, s7, s8];
    actions := [StartJob(id), Write(id, ref), Tick(GRACE + 1), BeginPass, Capture({}), List, Decide, Delete(name)];
  }

  /** And nothing that is not of a job is ever deleted by the sweep, in any schedule; by the
      cleanup of an ended job only what lies under that job's prefix. */
  lemma UnscopedStays(run: seq<State>, actions: seq<Action>, i: nat, name: string)
    requires Run(run, actions) && i < |actions| && name in run[i].store && BuildRecordJobID(name).None?
    requires actions[i].Cleanup? ==> !HasPrefix(name, BuildScopePrefix(actions[i].id))
    ensures name in run[i + 1].store
  {
    hide ScopedBuildRef, Lower, LowerAll, BuildRecordJobID, BuildScopePrefix, Chosen;
    assert Next(run[i], actions[i], run[i + 1]);
    if actions[i] == Delete(name) {
      var j := WasChosen(run, actions, i, name);
      ChosenNamesJob(run[j].phase.records, run[j].phase.live, run[j].now, name);
    }
  }

  lemma ChosenNamesJob(records: map<string, nat>, live: set<string>, now: int, name: string)
    requires now >= 0 && name in Chosen(records, live, now)
    ensures BuildRecordJobID(name).Some?
  {
    hide BuildRecordJobID, LowerAll;
  }

  /** Every capture saw all running jobs: no namespace failed to list its containers. */
  ghost predicate CompleteRun(run: seq<State>, actions: seq<Action>) {
    Run(run, actions) && forall i :: 0 <= i < |actions| ==> Complete(run[i], actions[i])
  }

  lemma {:induction false} RunSeen(run: seq<State>, actions: seq<Action>, i: nat)
    requires CompleteRun(run, actions) && i < |run|
    ensures PhaseSeen(run[i])
  {
    if i > 0 {
      RunSeen(run, actions, i - 1);
      RunInv(run, actions, i - 1);
      assert Next(run[i - 1], actions[i - 1], run[i - 1 + 1]) && Complete(run[i - 1], actions[i - 1]);
      StepSeen(run[i - 1], actions[i - 1], run[i]);
    }
  }

  /** With complete captures, in no schedule does the sweep, or the cleanup of an ended job,
      delete a record of a job that is running: it is still there after every step. */
  lemma RunningJobsKeepRecords(run: seq<State>, actions: seq<Action>, i: nat, name: string)
    requires CompleteRun(run, actions) && i < |actions|
    requires name in run[i].store && OfRunningJob(run[i], name)
    ensures name in run[i + 1].store
  {
    var id :| id in run[i].running && BuildRecordJobID(name) == Some(Lower(id));
    if name !in run[i + 1].store {
      var j := LostOnlyIfMissed(run, actions, i, name, id);
      RunSeen(run, actions, j);
      assert false;
    }
  }

  /** A name with a job's prefix belongs to that job or to none. */
  lemma PrefixNamesJob(id: string, name: string)
    requires JobId(id) && HasPrefix(name, BuildScopePrefix(id)) && BuildRecordJobID(name).Some?
    ensures BuildRecordJobID(name) == Some(Lower(id))
  {
    var prefix := BuildScopePrefix(id);
    var ref := name[|prefix|..];
    assert name == prefix + ref;
    if ref != "" {
      RecordNamesJob(id, ref);
    }
  }
}
