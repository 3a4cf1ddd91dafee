/** Names of build records in the shared namespace (pkg/dind/buildscope.go and the name
    half of pkg/dind/buildkit_cleanup.go). */
module BuildScope {
  import opened Text

  const REGISTRY := "build.ephemerd.local"
  const DOCKER_IO := "docker.io/"

  function LowerChar(c: char): char {
    if 'A' <= c <= 'Z' then (c as int + 32) as char else c
  }

  /** strings.ToLower over the alphabet of container IDs. */
  function Lower(s: string): (out: string)
    ensures |out| == |s|
    ensures forall i :: 0 <= i < |s| ==> out[i] == LowerChar(s[i])
  {
    if s == [] then [] else [LowerChar(s[0])] + Lower(s[1..])
  }

  /** A job ID the container runtime could have handed out. */
  predicate JobId(job: string) {
    job != "" && '/' !in job
  }

  lemma {:induction false} LowerJobId(job: string)
    requires '/' !in job
    ensures '/' !in Lower(job)
  {
    if job != [] {
      LowerJobId(job[1..]);
      assert job[0] in job;
    }
  }

  function BuildScopePrefix(job: string): string {
    if job == "" then "" else Scope(REGISTRY, Lower(job))
  }

  function ScopedBuildRef(job: string, ref: string): string {
    if job == "" || ref == "" then ref else Scope(REGISTRY, Lower(job)) + ref
  }

  function Scope(registry: string, id: string): string {
    registry + "/" + id + "/"
  }

  /** buildRecordJobID: the job a stored name belongs to, if it is job-scoped. */
  function BuildRecordJobID(name: string): Option<string> {
    ScopeIn(REGISTRY, name)
  }

  function ScopeIn(registry: string, name: string): Option<string> {
    var prefix := registry + "/";
    if !HasPrefix(name, prefix) then None
    else
      var rest := name[|prefix|..];
      var job := Before(rest, '/');
      if job == "" || |job| == |rest| || |job| + 1 == |rest| then None else Some(job)
  }

  /** The part before the first `c`, or everything. */
  function Before(s: string, c: char): (out: string)
    ensures out <= s && c !in out && (|out| < |s| ==> s[|out|] == c)
  {
    if s == [] || s[0] == c then [] else [s[0]] + Before(s[1..], c)
  }

  lemma {:induction false} BeforeIs(a: string, c: char, b: string)
    requires c !in a
    ensures Before(a + [c] + b, c) == a
  {
    if a != [] {
      assert (a + [c] + b)[1..] == a[1..] + [c] + b;
      BeforeIs(a[1..], c, b);
    }
  }

  /** Exactly the names of the form `build.ephemerd.local/<job>/<ref>` are of a job. */
  lemma RecordIs(name: string, job: string)
    ensures BuildRecordJobID(name) == Some(job)
            <==> JobId(job) && exists ref: string :: ref != "" && name == "build.ephemerd.local" + "/" + job + "/" + ref
  {
    var prefix := REGISTRY + "/";
    if BuildRecordJobID(name) == Some(job) {
      var rest := name[|prefix|..];
      var ref := rest[|job| + 1..];
      assert rest == job + ['/'] + ref;
      assert name == prefix + rest;
      assert name == "build.ephemerd.local" + "/" + job + "/" + ref;
    }
    if ref: string :| JobId(job) && ref != "" && name == "build.ephemerd.local" + "/" + job + "/" + ref {
      assert name == Scope(REGISTRY, job) + ref;
      ScopeRoundTrip(REGISTRY, job, ref);
    }
  }

  /** Capital letters become small, each its own, and nothing else changes. */
  lemma LowerIs(s: string, i: nat)
    requires i < |s|
    ensures 'A' <= s[i] <= 'Z' ==> 'a' <= Lower(s)[i] <= 'z'
    ensures 'A' <= s[i] <= 'Z' ==> Lower(s)[i] as int - 'a' as int == s[i] as int - 'A' as int
    ensures !('A' <= s[i] <= 'Z') ==> Lower(s)[i] == s[i]
  {
  }

  /** What a job's build is stored as. */
  lemma StoredAs(job: string, ref: string)
    ensures job != "" && ref != "" ==>
              ScopedBuildRef(job, ref) == "build.ephemerd.local" + "/" + Lower(job) + "/" + ref
    ensures job == "" || ref == "" ==> ScopedBuildRef(job, ref) == ref
  {
  }

  lemma ScopeRoundTrip(registry: string, id: string, ref: string)
    requires JobId(id) && ref != ""
    ensures ScopeIn(registry, Scope(registry, id) + ref) == Some(id)
  {
    var name, prefix := Scope(registry, id) + ref, registry + "/";
    assert name == prefix + (id + ['/'] + ref);
    assert name[|prefix|..] == id + ['/'] + ref;
    BeforeIs(id, '/', ref);
  }

  /** The job can be read back from a record it stored. */
  lemma RecordNamesJob(job: string, ref: string)
    requires JobId(job) && ref != ""
    ensures BuildRecordJobID(ScopedBuildRef(job, ref)) == Some(Lower(job))
  {
    hide Scope, ScopeIn;
    LowerJobId(job);
    ScopeRoundTrip(REGISTRY, Lower(job), ref);
  }

  lemma ScopePrefix(registry: string, id: string, other: string, ref: string)
    requires JobId(id) && JobId(other) && ref != ""
    ensures HasPrefix(Scope(registry, other) + ref, Scope(registry, id)) <==> id == other
  {
    var name, prefix := Scope(registry, other) + ref, Scope(registry, id);
    if HasPrefix(name, prefix) {
      var head, after := registry + "/", name[|prefix|..];
      assert name == prefix + after;
      assert name[|head|..] == id + ['/'] + after;
      assert name[|head|..] == other + ['/'] + ref;
      BeforeIs(id, '/', after);
      BeforeIs(other, '/', ref);
    }
  }

  /** Exactly the records of the same job, case aside, carry a job's prefix. */
  lemma PrefixMatches(job: string, other: string, ref: string)
    requires JobId(job) && JobId(other) && ref != ""
    ensures HasPrefix(ScopedBuildRef(other, ref), BuildScopePrefix(job)) <==> Lower(job) == Lower(other)
  {
    hide Scope;
    LowerJobId(job);
    LowerJobId(other);
    ScopePrefix(REGISTRY, Lower(job), Lower(other), ref);
  }

  /** Two stored names are equal only for the same job, case aside, and the same reference. */
  lemma ScopesApart(job: string, ref: string, other: string, ref': string)
    requires JobId(job) && JobId(other) && ref != "" && ref' != ""
    ensures ScopedBuildRef(job, ref) == ScopedBuildRef(other, ref') <==> Lower(job) == Lower(other) && ref == ref'
  {
    hide Scope;
    if ScopedBuildRef(job, ref) == ScopedBuildRef(other, ref') {
      RecordNamesJob(job, ref);
      RecordNamesJob(other, ref');
      var scope := Scope(REGISTRY, Lower(job));
      assert (scope + ref)[|scope|..] == ref && (scope + ref')[|scope|..] == ref';
    }
  }

  // ---- Push lookup ----

  function TrimPrefix(s: string, prefix: string): string {
    if HasPrefix(s, prefix) then s[|prefix|..] else s
  }

  /** The names in order, without empty ones and repetitions. */
  function Dedup(names: seq<string>): (out: seq<string>)
    ensures forall x :: x in out <==> x in names && x != ""
  {
    if names == [] then []
    else
      var init, last := Dedup(names[..|names| - 1]), names[|names| - 1];
      assert names == names[..|names| - 1] + [last];
      if last == "" || last in init then init else init + [last]
  }

  /** Where `x` first stands. */
  function FirstAt(names: seq<string>, x: string): nat {
    if names == [] || names[0] == x then 0 else 1 + FirstAt(names[1..], x)
  }

  lemma {:induction false} FirstAtIs(names: seq<string>, x: string)
    ensures x in names <==> FirstAt(names, x) < |names|
    ensures FirstAt(names, x) <= |names|
    ensures x in names ==> names[FirstAt(names, x)] == x && x !in names[..FirstAt(names, x)]
  {
    if names != [] && names[0] != x {
      FirstAtIs(names[1..], x);
      var k := FirstAt(names, x);
      assert names[..k] == [names[0]] + names[1..][..k - 1];
    }
  }

  lemma {:induction false} FirstAtLonger(names: seq<string>, last: string, x: string)
    ensures FirstAt(names + [last], x) == if x in names || last == x then FirstAt(names, x) else |names| + 1
  {
    if names == [] {
      assert names + [last] == [last] && [last][1..] == [];
    } else if names[0] != x {
      FirstAtLonger(names[1..], last, x);
      assert (names + [last])[1..] == names[1..] + [last];
      FirstAtIs(names[1..], x);
    }
  }

  /** No name twice, and all in the order in which they first came. */
  lemma {:induction false} DedupOrder(names: seq<string>, i: nat, j: nat)
    requires i < j < |Dedup(names)|
    ensures FirstAt(names, Dedup(names)[i]) < FirstAt(names, Dedup(names)[j]) && Dedup(names)[i] != Dedup(names)[j]
  {
    var init, last := names[..|names| - 1], names[|names| - 1];
    assert names == init + [last];
    var out := Dedup(init);
    assert Dedup(names)[i] in Dedup(names) && Dedup(names)[j] in Dedup(names);
    FirstAtLonger(init, last, Dedup(names)[i]);
    FirstAtLonger(init, last, Dedup(names)[j]);
    if j < |out| {
      assert out[i] in out && out[j] in out;
      DedupOrder(init, i, j);
    } else {
      assert out[i] in out;
      FirstAtIs(init, out[i]);
      FirstAtIs(init, last);
    }
  }

  /** dedup of pkg/dind/dind.go: a loop with a set of names seen. */
  method DedupLoop(names: seq<string>) returns (out: seq<string>)
    ensures out == Dedup(names)
  {
    var seen: set<string> := {};
    out := [];
    for i := 0 to |names|
      invariant out == Dedup(names[..i]) && forall x :: x in seen <==> x in out
    {
      assert names[..i + 1][..i] == names[..i];
      if names[i] == "" || names[i] in seen { continue; }
      seen := seen + {names[i]};
      out := out + [names[i]];
    }
    assert names[..|names|] == names;
  }

  function PushLookupCandidates(job: string, fullRef: string): seq<string> {
    var stripped := TrimPrefix(fullRef, DOCKER_IO);
    Dedup([ScopedBuildRef(job, fullRef), ScopedBuildRef(job, stripped), fullRef, stripped])
  }

  lemma {:induction false} DedupPrefix(names: seq<string>, more: seq<string>)
    ensures Dedup(names) <= Dedup(names + more)
  {
    if more == [] {
      assert names + more == names;
    } else {
      DedupPrefix(names, more[..|more| - 1]);
      assert (names + more)[..|names + more| - 1] == names + more[..|more| - 1];
    }
  }

  /** A push of a built tag, as tagged or with docker.io/ put before it, reaches the job's own
      record before any name outside the job's scope. */
  lemma PushFindsOwnBuild(job: string, tag: string, fullRef: string)
    requires JobId(job) && tag != "" && (fullRef == tag || fullRef == DOCKER_IO + tag)
    ensures exists i :: 0 <= i < |PushLookupCandidates(job, fullRef)|
                        && PushLookupCandidates(job, fullRef)[i] == ScopedBuildRef(job, tag)
                        && forall j :: 0 <= j <= i ==> HasPrefix(PushLookupCandidates(job, fullRef)[j],
                          BuildScopePrefix(job))
  {
    hide Scope;
    var stripped := TrimPrefix(fullRef, DOCKER_IO);
    var scoped := [ScopedBuildRef(job, fullRef), ScopedBuildRef(job, stripped)];
    assert fullRef == DOCKER_IO + tag ==> stripped == tag;
    DedupPrefix(scoped, [fullRef, stripped]);
    assert scoped + [fullRef, stripped] == [scoped[0], scoped[1], fullRef, stripped];
    var all := PushLookupCandidates(job, fullRef);
    assert ScopedBuildRef(job, tag) in scoped && ScopedBuildRef(job, tag) in Dedup(scoped);
    var i :| 0 <= i < |Dedup(scoped)| && Dedup(scoped)[i] == ScopedBuildRef(job, tag);
    forall j | 0 <= j <= i
      ensures HasPrefix(all[j], BuildScopePrefix(job))
    {
      assert all[j] == Dedup(scoped)[j] && Dedup(scoped)[j] in scoped;
      ScopedHasPrefix(job, fullRef);
      if stripped != "" { ScopedHasPrefix(job, stripped); }
    }
  }

  lemma DedupStep(names: seq<string>, x: string, longer: seq<string>)
    requires longer == names + [x]
    ensures Dedup(longer) == if x == "" || x in Dedup(names) then Dedup(names) else Dedup(names) + [x]
  {
    assert longer[..|longer| - 1] == names;
  }

  lemma DedupTwo(a: string, c: string)
    requires a != "" && c != "" && a != c
    ensures Dedup([a, a, c, c]) == [a, c]
  {
    DedupStep([], a, [a]);
    hide Dedup;
    DedupStep([a], a, [a, a]);
    DedupStep([a, a], c, [a, a, c]);
    DedupStep([a, a, c], c, [a, a, c, c]);
  }

  lemma DedupFour(a: string, b: string, c: string, d: string)
    requires a != "" && b != "" && c != "" && d != "" && a != b && a != c && a != d && b != c && b != d && c != d
    ensures Dedup([a, b, c, d]) == [a, b, c, d]
  {
    DedupStep([], a, [a]);
    hide Dedup;
    DedupStep([a], b, [a, b]);
    DedupStep([a, b], c, [a, b, c]);
    DedupStep([a, b, c], d, [a, b, c, d]);
  }

  /** What a push tries, and in which order: the job's own names first, the name as given before
      the one without docker.io/. */
  lemma PushOrder(job: string, ref: string)
    requires JobId(job) && ref != ""
    ensures var full := "docker.io/" + ref;
            PushLookupCandidates(job, full) == [ScopedBuildRef(job, full), ScopedBuildRef(job, ref), full, ref]
    ensures !("docker.io/" <= ref) ==> PushLookupCandidates(job, ref) == [ScopedBuildRef(job, ref), ref]
  {
    var full := "docker.io/" + ref;
    assert TrimPrefix(full, DOCKER_IO) == ref;
    var a, b := ScopedBuildRef(job, full), ScopedBuildRef(job, ref);
    assert a[0] == 'b' && b[0] == 'b' && full[0] == 'd' && |a| > |full| > |ref| && |a| > |b| > |ref|;
    DedupFour(a, b, full, ref);
    DedupTwo(b, ref);
  }

  lemma ScopedHasPrefix(job: string, ref: string)
    requires job != "" && ref != ""
    ensures HasPrefix(ScopedBuildRef(job, ref), BuildScopePrefix(job))
  {
    assert ScopedBuildRef(job, ref) == BuildScopePrefix(job) + ref;
  }
}
