/** Pinned bind sources: pathComponents and bindPin of pkg/dind/bindpin.go, pinBindSource
    of pkg/dind/bindpin_linux.go. */
module BindPin {
  import opened Text
  import opened FileTree
  import opened Kernel
  import opened BindWalk
  import opened BindCreate

  /** The parts that name something. */
  function Named(parts: seq<string>): seq<string> {
    if parts == [] then []
    else
      var init, last := Named(parts[..|parts| - 1]), parts[|parts| - 1];
      if last == "" || last == "." then init else init + [last]
  }

  /** The loop of pathComponents: drop empty and `.` parts, refuse `..`. */
  method KeepNamed(parts: seq<string>) returns (r: Sys<seq<string>>)
    ensures r == if ".." in parts then Err(EOTHER) else Ok(Named(parts))
  {
    var out: seq<string> := [];
    for i := 0 to |parts|
      invariant out == Named(parts[..i]) && ".." !in parts[..i]
    {
      assert parts[..i + 1][..i] == parts[..i] && parts[..i + 1] == parts[..i] + [parts[i]];
      if parts[i] == "" || parts[i] == "." { continue; }
      if parts[i] == ".." { return Err(EOTHER); }
      out := out + [parts[i]];
    }
    assert parts[..|parts|] == parts;
    return Ok(out);
  }

  lemma {:induction false} NamedPlain(parts: seq<string>)
    requires forall p :: p in parts ==> PlainName(p)
    ensures Named(parts) == parts
  {
    if parts != [] {
      NamedPlain(parts[..|parts| - 1]);
      assert PlainName(parts[|parts| - 1]);
      assert parts == parts[..|parts| - 1] + [parts[|parts| - 1]];
    }
  }

  /** Empty and `.` parts are dropped, wherever they stand, and nothing else. */
  lemma {:induction false} NamedDrops(a: seq<string>, x: string, b: seq<string>)
    ensures Named(a + [x] + b) == Named(a) + (if x == "" || x == "." then [] else [x]) + Named(b)
  {
    var all := a + [x] + b;
    if b == [] {
      assert all[..|all| - 1] == a && all[|all| - 1] == x;
    } else {
      NamedDrops(a, x, b[..|b| - 1]);
      assert all[..|all| - 1] == a + [x] + b[..|b| - 1] && all[|all| - 1] == b[|b| - 1];
    }
  }

  /** pathComponents: the plain names of the lexically cleaned path. The `..` it refuses
      cannot survive the cleaning, so it never refuses. */
  method PathComponents(rel: string) returns (r: Sys<seq<string>>)
    ensures r == Ok(RootedComponents(rel))
  {
    ghost var comps := RootedComponents(rel);
    var cleaned := CleanRooted(rel)[1..];
    assert cleaned == Join(comps, '/');
    if comps != [] {
      JoinNames(comps);
    }
    if cleaned == "" || cleaned == "." {
      return Ok([]);
    }
    SplitJoin(comps, '/');
    NamedPlain(comps);
    r := KeepNamed(Split(cleaned, '/'));
  }

  lemma JoinNames(comps: seq<string>)
    requires comps != [] && forall c :: c in comps ==> PlainName(c)
    ensures Join(comps, '/') != "" && Join(comps, '/') != "."
  {
    assert PlainName(comps[0]);
    if |comps| > 1 {
      assert |Join(comps, '/')| > 1;
    }
  }

  datatype Mode = Directory | Regular | Irregular

  function ModeOf(node: Inode): Mode {
    match node
    case Dir(_, _, _) => Directory
    case Leaf(_, regular) => if regular then Regular else Irregular
    case Symlink(_, _) => Irregular
  }

  /** A bind source resolved once and held open. */
  class Pin {
    const mode: Mode
    /** The descriptor, or -1 once released. */
    var fd: int
    /** The path a stager published the pin at, with a teardown, and how often that was run. */
    var staged: Option<string>
    var unstaged: nat
    /** The state of sync.Once. */
    var done: bool

    constructor (fd: Fd, mode: Mode)
      ensures this.fd == fd && this.mode == mode && staged == None && unstaged == 0 && !done
    {
      this.fd, this.mode, this.staged, this.unstaged, this.done := fd, mode, None, 0, false;
    }

    /** A pin not yet closed owns one open descriptor; a closed one owns nothing. */
    ghost predicate Owns(k: Host)
      reads this, k
    {
      if done then fd == -1 && unstaged <= 1 else fd in k.open && unstaged == 0
    }

    /** Close: the first call runs the teardown and closes the descriptor, later ones do
        nothing. That every descriptor closed is open is the precondition of Host.Close. */
    method Close(k: Host)
      requires k.Valid() && Owns(k)
      modifies this, k`open
      ensures k.Valid() && Owns(k) && done && staged == old(staged)
      ensures k.open == if old(done) then old(k.open) else old(k.open) - {old(fd)}
      ensures unstaged == old(unstaged) + (if !old(done) && staged.Some? then 1 else 0)
    {
      if done { return; }
      done := true;
      if staged.Some? {
        unstaged := unstaged + 1;
      }
      if fd >= 0 {
        k.Close(fd);
        fd := -1;
      }
    }
  }

  /** The descriptors the pins of a batch own. */
  ghost function Owned(pins: seq<Pin?>): set<int>
    reads set p | p in pins && p != null :: p
  {
    set p | p in pins && p != null && !p.done :: p.fd
  }

  /** No two pins own the same descriptor. */
  ghost predicate Separate(pins: seq<Pin?>)
    reads set p | p in pins && p != null :: p
  {
    forall p, q :: p in pins && q in pins && p != null && q != null && p != q && !p.done && !q.done ==> p.fd != q.fd
  }

  /** closeBindPins, over a batch that may repeat pins and hold nil: afterwards every pin is
      closed, and exactly the descriptors the batch owned are, once each. */
  method CloseBindPins(k: Host, pins: seq<Pin?>)
    requires k.Valid() && (forall p :: p in pins && p != null ==> p.Owns(k)) && Separate(pins)
    modifies (set p | p in pins && p != null :: p), k`open
    ensures k.Valid() && k.open == old(k.open) - (set fd: Fd | fd in old(k.open) && fd in old(Owned(pins)))
    ensures forall p :: p in pins && p != null ==> p.done && p.Owns(k)
    ensures forall p :: p in pins && p != null ==> p.unstaged <= 1
  {
    for i := 0 to |pins|
      invariant k.Valid() && (forall p :: p in pins && p != null ==> p.Owns(k)) && Separate(pins)
      invariant forall p :: p in pins[..i] && p != null ==> p.done
      invariant forall p :: p in pins && p != null && !p.done ==> !old(p.done) && p.fd == old(p.fd)
      invariant forall p :: p in pins && p != null && old(p.done) ==> p.done
      invariant forall fd :: fd in k.open ==> fd in old(k.open) && k.open[fd] == old(k.open)[fd]
      invariant forall fd :: fd in old(k.open) ==>
                  (fd in k.open <==> !exists p :: p in pins && p != null && p.done && !old(p.done) && old(p.fd) == fd)
    {
      if pins[i] != null {
        assert pins[i] in pins;
        pins[i].Close(k);
        assert pins[..i + 1] == pins[..i] + [pins[i]];
      }
    }
    assert pins[..|pins|] == pins;
  }

  /** What a pin on `rel` beneath `root` may hold when nobody else touches the tree: the node
      the path resolved to before the call, or the directory that was made for it. */
  ghost predicate PinnedRight(t: Tree, t': Tree, root: Ino, comps: seq<string>, autoCreate: bool, node: Ino)
    requires Linked(t) && root in t && (comps != [] ==> IsDir(t, root))
  {
    if comps == [] then node == root && t' == t
    else
      var o := WalkResolve(t, root, comps);
      if o.Done? then node == o.pos.Here() && t' == t
      else o == Fail(ENOENT) && autoCreate && exists i, inos :: Created(t, t', root, comps, i, inos, node)
  }

  /** The mode tells directories, regular files and everything else apart. */
  predicate Shows(mode: Mode, node: Inode) {
    && (mode == Directory <==> node.Dir?)
    && (mode == Regular <==> node.Leaf? && node.regular)
  }

  /** The conservation law for pins: one more open descriptor, owned by the new pin, or none. */
  twostate predicate PinOpens(k: Host, new r: Sys<Pin>)
    reads k, if r.Ok? then {r.value} else {}
  {
    match r
    case Ok(pin) =>
      && fresh(pin) && !pin.done && pin.staged == None && pin.Owns(k) && pin.fd !in old(k.open)
      && k.open == old(k.open)[pin.fd := k.open[pin.fd]]
      && k.open[pin.fd] in k.fs && Shows(pin.mode, k.fs[k.open[pin.fd]])
    case Err(_) => k.open == old(k.open)
  }

  /** newBindPin: stat the held descriptor and wrap it, or let go of it. */
  method NewPin(k: Host, fd: Fd) returns (r: Sys<Pin>)
    requires k.Valid() && fd in k.open
    modifies k
    ensures k.Valid() && k.Moved()
    ensures r.Err? ==> k.open == old(k.open) - {fd} && k.Injected(r.errno)
    ensures r.Ok? ==> fresh(r.value) && r.value.fd == fd && !r.value.done && r.value.staged == None && r.value.Owns(k)
                      && k.open == old(k.open) && Shows(r.value.mode, k.fs[k.open[fd]])
  {
    var st := k.Fstat(fd);
    if st.Err? {
      k.Close(fd);
      return Err(st.errno);
    }
    var pin := new Pin(fd, ModeOf(st.value));
    r := Ok(pin);
  }

  /** The two resolvers in turn: what is there, or what can be made. */
  method FindOrCreate(k: Host, anchor: Fd, comps: seq<string>, autoCreate: bool) returns (r: Sys<Fd>)
    requires k.Valid() && anchor in k.open && k.open[anchor] in k.zones && IsDir(k.fs, k.open[anchor])
    requires comps != [] && forall c :: c in comps ==> PlainName(c)
    modifies k
    ensures k.Valid() && Evolved(old(k.fs), old(k.zones), k.fs, k.zones)
    ensures Opens(old(k.open), k.open, r)
    ensures r.Ok? ==> k.open[r.value] in k.zones[old(k.open)[anchor]]
    ensures k.quiet && r.Ok? ==>
              PinnedRight(old(k.fs), k.fs, old(k.open)[anchor], comps, autoCreate, k.open[r.value])
    ensures k.quiet ==>
              k.Still() || (autoCreate && AddsInside(old(k.fs), old(k.zones), k.fs, k.zones, old(k.open)[anchor]))
    ensures k.quiet && k.reliable ==>
              var o := KernelResolve(old(k.fs), old(k.open)[anchor], comps);
              && (o.Done? ==> r.Ok?)
              && (o == Fail(ENOENT) ==> (r.Ok? <==> autoCreate && Creatable(old(k.fs), old(k.open)[anchor], comps)))
  {
    hide Linked, TreeShaped, Zoned, Evolved, Resolve, WalkResolve, KernelResolve, Created, Creatable,
      AddsInside, PlainName;
    ghost var root := k.open[anchor];
    k.ValidFacts();
    ZoneHasRoot(k.fs, k.zones, root);
    r := ResolveBeneath(k, anchor, comps);
    k.ValidFacts();
    EvolvedDir(old(k.fs), old(k.zones), k.fs, k.zones, root);
    if k.quiet {
      WalkMatchesKernel(k.fs, root, comps);
    }
    if r.Ok? || !autoCreate || r.errno != ENOENT { return; }
    ghost var fs1, zones1, at, inos := k.fs, k.zones, 0, [];
    EvolvedZone(old(k.fs), old(k.zones), fs1, zones1, root, root);
    r, at, inos := CreateBeneath(k, anchor, comps);
    EvolvedTrans(old(k.fs), old(k.zones), fs1, zones1, k.fs, k.zones);
  }

  /** pinBindSource: pin `rel` beneath the bind root `root`. */
  method PinBindSource(k: Host, root: string, rel: string, autoCreate: bool) returns (r: Sys<Pin>)
    requires k.Valid()
    modifies k
    ensures k.Valid() && Evolved(old(k.fs), old(k.zones), k.fs, k.zones)
    ensures PinOpens(k, r)
    ensures r.Ok? ==> root in k.roots && k.open[r.value.fd] in k.zones[k.roots[root]]
    ensures k.quiet && r.Ok? ==>
              && (RootedComponents(rel) != [] ==> IsDir(old(k.fs), k.roots[root]))
              && PinnedRight(old(k.fs), k.fs, k.roots[root], RootedComponents(rel), autoCreate, k.open[r.value.fd])
    ensures k.quiet ==>
              k.Still()
              || (autoCreate && root in k.roots && AddsInside(old(k.fs), old(k.zones), k.fs, k.zones, k.roots[root]))
    ensures k.quiet && k.reliable && root in k.roots && IsDir(old(k.fs), k.roots[root]) ==>
              var comps := RootedComponents(rel);
              var o := KernelResolve(old(k.fs), k.roots[root], comps);
              && (o.Done? ==> r.Ok?)
              && (o == Fail(ENOENT) ==> (r.Ok? <==> autoCreate && Creatable(old(k.fs), k.roots[root], comps)))
    ensures k.reliable && root in k.roots && RootedComponents(rel) == [] ==> r.Ok?
  {
    var parsed := PathComponents(rel);
    if |parsed.value| == 0 {
      r := PinRoot(k, root);
    } else {
      r := PinBelow(k, root, parsed.value, autoCreate);
    }
  }

  /** The empty path: pin the bind root itself. */
  method PinRoot(k: Host, root: string) returns (r: Sys<Pin>)
    requires k.Valid()
    modifies k
    ensures k.Valid() && k.Moved()
    ensures PinOpens(k, r)
    ensures r.Ok? ==> root in k.roots && k.open[r.value.fd] in k.zones[k.roots[root]]
    ensures r.Ok? ==> k.open[r.value.fd] == k.roots[root]
    ensures k.reliable && root in k.roots ==> r.Ok?
  {
    hide Linked, TreeShaped, Zoned, Evolved;
    var whole := k.OpenRoot(root, false);
    if whole.Err? { return Err(whole.errno); }
    ghost var fs1, zones1, open1, rt := k.fs, k.zones, k.open, k.roots[root];
    ZoneHasRoot(fs1, zones1, rt);
    r := NewPin(k, whole.value);
    EvolvedTrans(old(k.fs), old(k.zones), fs1, zones1, k.fs, k.zones);
    EvolvedZone(fs1, zones1, k.fs, k.zones, rt, rt);
    assert open1 - {whole.value} == old(k.open);
  }

  /** Pin a resolved descriptor and let go of the anchor, in every case. */
  method Finish(k: Host, anchor: Fd, fd: Fd) returns (r: Sys<Pin>)
    requires k.Valid() && anchor in k.open && fd in k.open && anchor != fd
    modifies k
    ensures k.Valid() && k.Moved()
    ensures r.Err? ==> k.open == old(k.open) - {anchor} - {fd} && k.Injected(r.errno)
    ensures r.Ok? ==> fresh(r.value) && r.value.fd == fd && !r.value.done && r.value.staged == None && r.value.Owns(k)
                      && k.open == old(k.open) - {anchor} && Shows(r.value.mode, k.fs[k.open[fd]])
  {
    hide Linked, TreeShaped, Zoned, Evolved;
    r := NewPin(k, fd);
    k.Close(anchor);
  }

  /** A path with components: anchor at the root, resolve or create, and pin the result. */
  method PinBelow(k: Host, root: string, comps: seq<string>, autoCreate: bool) returns (r: Sys<Pin>)
    requires k.Valid() && comps != [] && forall c :: c in comps ==> PlainName(c)
    modifies k
    ensures k.Valid() && Evolved(old(k.fs), old(k.zones), k.fs, k.zones)
    ensures PinOpens(k, r)
    ensures r.Ok? ==> root in k.roots && k.open[r.value.fd] in k.zones[k.roots[root]]
    ensures k.quiet && r.Ok? ==>
              && IsDir(old(k.fs), k.roots[root])
              && PinnedRight(old(k.fs), k.fs, k.roots[root], comps, autoCreate, k.open[r.value.fd])
    ensures k.quiet ==>
              k.Still()
              || (autoCreate && root in k.roots && AddsInside(old(k.fs), old(k.zones), k.fs, k.zones, k.roots[root]))
    ensures k.quiet && k.reliable && root in k.roots && IsDir(old(k.fs), k.roots[root]) ==>
              var o := KernelResolve(old(k.fs), k.roots[root], comps);
              && (o.Done? ==> r.Ok?)
              && (o == Fail(ENOENT) ==> (r.Ok? <==> autoCreate && Creatable(old(k.fs), k.roots[root], comps)))
  {
    hide Linked, TreeShaped, Zoned, Evolved, KernelResolve, PinnedRight, Creatable, AddsInside, PlainName;
    k.ValidFacts();
    var anchor := k.OpenRoot(root, true);
    if anchor.Err? { return Err(anchor.errno); }
    ghost var fs1, zones1, rt := k.fs, k.zones, k.roots[root];
    var found := FindOrCreate(k, anchor.value, comps, autoCreate);
    ghost var fs2, zones2, open2 := k.fs, k.zones, k.open;
    EvolvedTrans(old(k.fs), old(k.zones), fs1, zones1, fs2, zones2);
    if found.Err? {
      k.Close(anchor.value);
      assert k.open == old(k.open);
      return Err(found.errno);
    }
    ghost var fd := found.value;
    r := Finish(k, anchor.value, found.value);
    EvolvedTrans(old(k.fs), old(k.zones), fs2, zones2, k.fs, k.zones);
    EvolvedZone(fs2, zones2, k.fs, k.zones, rt, open2[fd]);
    assert open2 - {anchor.value} == old(k.open)[fd := open2[fd]];
  }
}
