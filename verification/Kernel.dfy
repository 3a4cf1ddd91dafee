/** The part of a Linux kernel that bind pinning talks to: an inode tree shared with the
    job, and the descriptors this process holds on it.

    Before every call the environment may rewrite the tree. All it is bound by is
    `Evolved`: inodes keep their kind, and in every zone (the inodes that count as inside
    one bind root) no inode from outside becomes a non-symlink child. A `quiet` kernel has
    no such interference, a `reliable` one no injected faults. */
module Kernel {
  import opened Text
  import opened FileTree

  type Fd = nat
  type Zones = map<Ino, set<Ino>>

  datatype Sys<+T> = Ok(value: T) | Err(errno: Errno)

  /** Children of an inode inside are inside, symlinks excepted. */
  predicate Sealed(t: Tree, zone: set<Ino>) {
    && (forall d :: d in zone ==> d in t)
    && (forall d, name {:trigger t[d].entries[name]} ::
          d in zone && t[d].Dir? && name in t[d].entries && t[d].entries[name] in t ==>
            t[d].entries[name] in zone || t[t[d].entries[name]].Symlink?)
  }

  predicate Zoned(t: Tree, zones: Zones) {
    forall root :: root in zones ==> root in zones[root] && Sealed(t, zones[root])
  }

  predicate SameKind(a: Inode, b: Inode) {
    a.Dir? == b.Dir? && a.Leaf? == b.Leaf? && (a.Leaf? ==> a.regular == b.regular)
  }

  /** What may happen to the tree between two calls; only new inodes join a zone. */
  predicate Evolved(t: Tree, zones: Zones, t': Tree, zones': Zones) {
    && (forall n :: n in t ==> n in t' && SameKind(t[n], t'[n]))
    && zones.Keys == zones'.Keys
    && (forall root :: root in zones ==> zones[root] <= zones'[root])
    && (forall root, n :: root in zones && n in zones'[root] && n in t ==> n in zones[root])
  }

  lemma EvolvedRefl(t: Tree, z: Zones)
    ensures Evolved(t, z, t, z)
  {
  }

  lemma EvolvedTrans(t: Tree, z: Zones, t': Tree, z': Zones, t'': Tree, z'': Zones)
    requires Evolved(t, z, t', z') && Evolved(t', z', t'', z'')
    ensures Evolved(t, z, t'', z'')
  {
  }

  lemma EvolvedZone(t: Tree, z: Zones, t': Tree, z': Zones, root: Ino, n: Ino)
    requires Evolved(t, z, t', z') && root in z && n in z[root]
    ensures root in z' && n in z'[root]
  {
  }

  lemma ZoneHasRoot(t: Tree, z: Zones, root: Ino)
    requires Zoned(t, z) && root in z
    ensures root in z[root] && root in t
  {
    assert Sealed(t, z[root]);
  }

  lemma EvolvedDir(t: Tree, z: Zones, t': Tree, z': Zones, n: Ino)
    requires Evolved(t, z, t', z') && n in t
    ensures n in t' && IsDir(t', n) == IsDir(t, n)
  {
    assert SameKind(t[n], t'[n]);
  }

  /** The tree with a new empty directory `n` called `name` in `d`. */
  function WithDir(t: Tree, d: Ino, name: string, n: Ino, owner: Owner): Tree
    requires IsDir(t, d)
  {
    t[d := t[d].(entries := t[d].entries[name := n])][n := Dir(owner, d, map[])]
  }

  function ZonesWith(zones: Zones, d: Ino, n: Ino): Zones {
    map root | root in zones :: if d in zones[root] then zones[root] + {n} else zones[root]
  }

  lemma WithDirExtends(t: Tree, d: Ino, name: string, n: Ino, owner: Owner)
    requires Linked(t) && IsDir(t, d) && n !in t && name !in t[d].entries
    ensures Extends(t, WithDir(t, d, name, n, owner))
  {
    hide Linked;
    var t' := WithDir(t, d, name, n, owner);
    forall m | m in t && m != d
      ensures m in t' && t'[m] == t[m]
    {
    }
  }

  lemma WithDirLinked(t: Tree, d: Ino, name: string, n: Ino, owner: Owner)
    requires Linked(t) && IsDir(t, d) && n !in t && name !in t[d].entries
    ensures Linked(WithDir(t, d, name, n, owner))
  {
    var t' := WithDir(t, d, name, n, owner);
    forall e, x | e in t' && t'[e].Dir? && x in t'[e].entries
      ensures t'[e].entries[x] in t'
    {
      if e != n && !(e == d && x == name) {
        assert t[e].entries[x] == t'[e].entries[x];
      }
    }
    forall e | e in t' && t'[e].Dir?
      ensures IsDir(t', t'[e].parent)
    {
      if e != n {
        assert t[e].parent == t'[e].parent;
      }
    }
  }

  lemma WithDirSealed(t: Tree, zone: set<Ino>, d: Ino, name: string, n: Ino, owner: Owner)
    requires Linked(t) && Sealed(t, zone) && IsDir(t, d) && n !in t && name !in t[d].entries
    ensures Sealed(WithDir(t, d, name, n, owner), if d in zone then zone + {n} else zone)
  {
    var t', zone' := WithDir(t, d, name, n, owner), if d in zone then zone + {n} else zone;
    forall e, x | e in zone' && t'[e].Dir? && x in t'[e].entries && t'[e].entries[x] in t'
      ensures t'[e].entries[x] in zone' || t'[t'[e].entries[x]].Symlink?
    {
      if e != n && !(e == d && x == name) {
        assert t[e].entries[x] == t'[e].entries[x];
      }
    }
  }

  lemma WithDirKeeps(t: Tree, zones: Zones, d: Ino, name: string, n: Ino, owner: Owner)
    requires Linked(t) && Zoned(t, zones) && IsDir(t, d) && n !in t && name !in t[d].entries
    ensures var t' := WithDir(t, d, name, n, owner);
            Zoned(t', ZonesWith(zones, d, n)) && Evolved(t, zones, t', ZonesWith(zones, d, n))
  {
    forall root | root in zones
      ensures Sealed(WithDir(t, d, name, n, owner), ZonesWith(zones, d, n)[root])
    {
      WithDirSealed(t, zones[root], d, name, n, owner);
    }
    forall root | root in zones
      ensures n !in zones[root]
    {
      assert Sealed(t, zones[root]);
    }
  }

  lemma WithDirKeepsShape(t: Tree, d: Ino, name: string, n: Ino, owner: Owner)
    requires Linked(t) && TreeShaped(t) && IsDir(t, d) && n !in t && name !in t[d].entries
    ensures TreeShaped(WithDir(t, d, name, n, owner))
  {
    var t' := WithDir(t, d, name, n, owner);
    forall e, m | ChildOf(t', e, m)
      ensures (e == d && m == n) || (m != n && ChildOf(t, e, m))
    {
      var x :| x in t'[e].entries && t'[e].entries[x] == m;
      if e != n && !(e == d && x == name) {
        assert t[e].entries[x] == m;
      }
    }
    forall p: seq<Ino> | Chain(t', p) && |p| > 1
      ensures p[0] != p[|p| - 1]
    {
      assert ChildOf(t', p[0], p[1]);
      if p[|p| - 1] != n {
        forall i | 0 <= i < |p| - 1
          ensures ChildOf(t, p[i], p[i + 1])
        {
          assert ChildOf(t', p[i], p[i + 1]);
          if i + 1 < |p| - 1 {
            assert ChildOf(t', p[i + 1], p[i + 2]);
          }
        }
        assert Chain(t, p);
      }
    }
  }

  /** The tree with the owner of `n` replaced. */
  function WithOwner(t: Tree, n: Ino, owner: Owner): Tree
    requires n in t
  {
    t[n := t[n].(owner := owner)]
  }

  lemma WithOwnerKeeps(t: Tree, zones: Zones, n: Ino, owner: Owner)
    requires Linked(t) && Zoned(t, zones) && n in t
    ensures var t' := WithOwner(t, n, owner);
            Linked(t') && Zoned(t', zones) && Evolved(t, zones, t', zones)
  {
    var t' := WithOwner(t, n, owner);
    forall root | root in zones
      ensures Sealed(t', zones[root])
    {
      assert Sealed(t, zones[root]);
      forall e, x | e in zones[root] && t'[e].Dir? && x in t'[e].entries && t'[e].entries[x] in t'
        ensures t'[e].entries[x] in zones[root] || t'[t'[e].entries[x]].Symlink?
      {
        assert t[e].entries[x] == t'[e].entries[x];
      }
    }
  }

  lemma WithOwnerKeepsShape(t: Tree, n: Ino, owner: Owner)
    requires Linked(t) && TreeShaped(t) && n in t
    ensures TreeShaped(WithOwner(t, n, owner))
  {
    var t' := WithOwner(t, n, owner);
    forall e, m | ChildOf(t', e, m)
      ensures ChildOf(t, e, m)
    {
      var x :| x in t'[e].entries && t'[e].entries[x] == m;
      assert t[e].entries[x] == m;
    }
    forall p: seq<Ino> | Chain(t', p) && |p| > 1
      ensures p[0] != p[|p| - 1]
    {
      assert Chain(t, p);
    }
  }

  /** A stack that starts inside stays inside. */
  lemma {:induction false} StackInZone(t: Tree, zone: set<Ino>, root: Ino, s: seq<Ino>, i: nat)
    requires Linked(t) && OnStack(t, root, s) && Sealed(t, zone) && root in zone && i < |s|
    ensures s[i] in zone
  {
    if i > 0 {
      StackInZone(t, zone, root, s, i - 1);
      assert ChildOf(t, s[i - 1], s[i - 1 + 1]);
      var name :| name in t[s[i - 1]].entries && t[s[i - 1]].entries[name] == s[i];
    }
  }

  /** Contained resolution on an unchanging tree ends inside the zone of its root. */
  lemma ResolveInZone(t: Tree, zone: set<Ino>, root: Ino, strict: bool, comps: seq<string>, links: nat)
    requires Linked(t) && TreeShaped(t) && IsDir(t, root) && Sealed(t, zone) && root in zone
    ensures var o := Resolve(t, root, strict, In(root), comps, links); o.Done? ==> o.pos.Here() in zone
  {
    StackRoot(t, root);
    var end := ResolveStack(t, root, strict, [root], comps, links);
    if Resolve(t, root, strict, In(root), comps, links).Done? {
      StackInZone(t, zone, root, end, |end| - 1);
    }
  }

  /** `n` is a symlink or inside every zone that `d` is inside. */
  ghost predicate NoEscape(t: Tree, zones: Zones, d: Ino, n: Ino) {
    && d in t && n in t
    && forall root :: root in zones && d in zones[root] ==> t[n].Symlink? || n in zones[root]
  }

  lemma EntryNoEscape(t: Tree, zones: Zones, d: Ino, name: string)
    requires Linked(t) && Zoned(t, zones) && IsDir(t, d) && name in t[d].entries
    ensures NoEscape(t, zones, d, t[d].entries[name])
  {
    forall root | root in zones && d in zones[root]
      ensures t[t[d].entries[name]].Symlink? || t[d].entries[name] in zones[root]
    {
      assert Sealed(t, zones[root]);
    }
  }

  lemma NoEscapeEvolves(t: Tree, z: Zones, t': Tree, z': Zones, d: Ino, n: Ino)
    requires NoEscape(t, z, d, n) && Evolved(t, z, t', z')
    ensures NoEscape(t', z', d, n)
  {
    assert SameKind(t[n], t'[n]);
  }

  lemma NoEscapeTrans(t: Tree, z: Zones, a: Ino, b: Ino, c: Ino)
    requires NoEscape(t, z, a, b) && NoEscape(t, z, b, c) && (a == b || !t[b].Symlink?)
    ensures NoEscape(t, z, a, c)
  {
  }

  /** What others may do at any time: in a directory of a job's tree, put any names in place of
      any others, for anything inside the same roots or any symlink, whatever it points to. */
  lemma JobMayRewire(t: Tree, zones: Zones, d: Ino, entries: map<string, Ino>)
    requires Linked(t) && Zoned(t, zones) && IsDir(t, d)
    requires forall name :: name in entries ==> NoEscape(t, zones, d, entries[name])
    ensures var t' := t[d := t[d].(entries := entries)];
            Linked(t') && Zoned(t', zones) && Evolved(t, zones, t', zones)
  {
    var t' := t[d := t[d].(entries := entries)];
    forall e, x | e in t' && t'[e].Dir? && x in t'[e].entries
      ensures t'[e].entries[x] in t'
    {
      if e != d {
        assert t[e].entries[x] == t'[e].entries[x];
      }
    }
    forall e | e in t' && t'[e].Dir?
      ensures IsDir(t', t'[e].parent)
    {
      assert t[e].parent == t'[e].parent;
    }
    forall root | root in zones
      ensures Sealed(t', zones[root])
    {
      forall e, x | e in zones[root] && t'[e].Dir? && x in t'[e].entries && t'[e].entries[x] in t'
        ensures t'[e].entries[x] in zones[root] || t'[t'[e].entries[x]].Symlink?
      {
        if e == d {
          assert NoEscape(t, zones, d, entries[x]);
        } else {
          assert t[e].entries[x] == t'[e].entries[x];
        }
      }
    }
  }

  /** A symlink to anywhere may turn up at any time. */
  lemma JobMayLink(t: Tree, zones: Zones, n: Ino, owner: Owner, target: string)
    requires Linked(t) && Zoned(t, zones) && n !in t
    ensures var t' := t[n := Symlink(owner, target)];
            Linked(t') && Zoned(t', zones) && Evolved(t, zones, t', zones)
  {
    var t' := t[n := Symlink(owner, target)];
    forall root | root in zones
      ensures Sealed(t', zones[root])
    {
      assert Sealed(t, zones[root]);
      forall e, x | e in zones[root] && t'[e].Dir? && x in t'[e].entries && t'[e].entries[x] in t'
        ensures t'[e].entries[x] in zones[root] || t'[t'[e].entries[x]].Symlink?
      {
        assert e in t && t[e].entries[x] == t'[e].entries[x];
      }
    }
    forall e, x | e in t' && t'[e].Dir? && x in t'[e].entries
      ensures t'[e].entries[x] in t'
    {
      assert t[e].entries[x] == t'[e].entries[x];
    }
    forall e | e in t' && t'[e].Dir?
      ensures IsDir(t', t'[e].parent)
    {
      assert t[e].parent == t'[e].parent;
    }
  }

  /** A bare root directory is a tree that a quiet host can have. */
  lemma BareRoot(root: Ino, owner: Owner)
    ensures var t := map[root := Dir(owner, root, map[])];
            Linked(t) && TreeShaped(t) && Zoned(t, map[root := {root}])
  {
    var t := map[root := Dir(owner, root, map[])];
    forall p: seq<Ino> | |p| > 1
      ensures !Chain(t, p)
    {
      assert !ChildOf(t, p[0], p[0 + 1]);
    }
  }

  class Host {
    var fs: Tree
    var zones: Zones
    /** The descriptors this process holds, and the inode each one pins. */
    var open: map<Fd, Ino>
    /** The host paths ephemerd chose as bind roots. */
    const roots: map<string, Ino>
    const quiet: bool
    const reliable: bool

    constructor (fs: Tree, zones: Zones, roots: map<string, Ino>, quiet: bool, reliable: bool)
      requires Linked(fs) && Zoned(fs, zones) && (quiet ==> TreeShaped(fs))
      requires forall path :: path in roots ==> roots[path] in zones
      ensures Valid() && open == map[] && this.fs == fs && this.zones == zones && this.roots == roots
      ensures this.quiet == quiet && this.reliable == reliable
    {
      this.fs, this.zones, this.open, this.roots := fs, zones, map[], roots;
      this.quiet, this.reliable := quiet, reliable;
    }

    ghost predicate Valid()
      reads this
    {
      && Linked(fs) && Zoned(fs, zones)
      && (forall fd :: fd in open ==> open[fd] in fs)
      && (forall path :: path in roots ==> roots[path] in zones)
      && (quiet ==> TreeShaped(fs))
    }

    lemma ValidFacts()
      requires Valid()
      ensures Linked(fs) && Zoned(fs, zones) && (quiet ==> TreeShaped(fs))
    {
    }

    /** Nothing of the tree moved. */
    twostate predicate Still()
      reads this
    {
      fs == old(fs) && zones == old(zones)
    }

    twostate predicate Moved()
      reads this
    {
      Evolved(old(fs), old(zones), fs, zones) && (quiet ==> Still())
    }

    /** The job, or anyone else, rewrites the tree as far as `Evolved` allows. */
    method Interfere()
      requires Valid()
      modifies this`fs, this`zones
      ensures Valid() && Moved()
    {
      var t: Tree := *;
      var z: Zones := *;
      if !quiet && Linked(t) && Zoned(t, z) && Evolved(fs, zones, t, z) {
        fs, zones := t, z;
      }
    }

    /** Possibly an error out of nowhere. With nobody else about it is never one that
        says something of the tree, but lack of descriptors, permission or memory. */
    method Fault() returns (f: Option<Errno>)
      ensures f.Some? ==> Injected(f.value)
    {
      var errno: Errno := *;
      var fails: bool := *;
      f := if reliable || !fails then None else Some(if quiet then EOTHER else errno);
    }

    predicate Injected(errno: Errno) {
      !reliable && (quiet ==> errno == EOTHER)
    }

    method Hold(n: Ino) returns (fd: Fd)
      requires Valid() && n in fs
      modifies this`open
      ensures Valid() && fd !in old(open) && open == old(open)[fd := n]
    {
      fd := LowestFree(open.Keys);
      open := open[fd := n];
    }

    method Close(fd: Fd)
      requires Valid() && fd in open
      modifies this`open
      ensures Valid() && open == old(open) - {fd}
    {
      open := open - {fd};
    }

    method Dup(fd: Fd) returns (r: Sys<Fd>)
      requires Valid() && fd in open
      modifies this
      ensures Valid() && Moved()
      ensures r.Ok? ==> r.value !in old(open) && open == old(open)[r.value := old(open)[fd]]
      ensures r.Err? ==> open == old(open) && Injected(r.errno)
    {
      Interfere();
      var f := Fault();
      if f.Some? { return Err(f.value); }
      var held := Hold(open[fd]);
      r := Ok(held);
    }

    /** openat(2) of one component with O_PATH|O_NOFOLLOW, and O_DIRECTORY on request. */
    method Openat(dirFd: Fd, name: string, dirOnly: bool) returns (r: Sys<Fd>)
      requires Valid() && dirFd in open
      modifies this
      ensures Valid() && Moved()
      ensures r.Ok? ==>
                && var d := old(open)[dirFd];
                && IsDir(fs, d) && name in fs[d].entries
                && (dirOnly ==> IsDir(fs, fs[d].entries[name]))
                && r.value !in old(open) && open == old(open)[r.value := fs[d].entries[name]]
      ensures r.Err? ==> open == old(open)
      ensures r.Err? && !Injected(r.errno) ==>
                var d := open[dirFd];
                if !fs[d].Dir? then r.errno == ENOTDIR
                else if name !in fs[d].entries then r.errno == ENOENT
                else dirOnly && !IsDir(fs, fs[d].entries[name]) && r.errno == ENOTDIR
    {
      Interfere();
      var f := Fault();
      if f.Some? { return Err(f.value); }
      var d := open[dirFd];
      if !fs[d].Dir? { return Err(ENOTDIR); }
      if name !in fs[d].entries { return Err(ENOENT); }
      var n := fs[d].entries[name];
      if dirOnly && !fs[n].Dir? { return Err(ENOTDIR); }
      var held := Hold(n);
      r := Ok(held);
    }

    method Fstat(fd: Fd) returns (r: Sys<Inode>)
      requires Valid() && fd in open
      modifies this`fs, this`zones
      ensures Valid() && Moved()
      ensures r.Ok? ==> r.value == fs[open[fd]]
      ensures r.Err? ==> Injected(r.errno)
    {
      Interfere();
      var f := Fault();
      r := if f.Some? then Err(f.value) else Ok(fs[open[fd]]);
    }

    /** readlinkat(2) on a held symlink; an empty or over-long target is refused. */
    method Readlink(fd: Fd) returns (r: Sys<string>)
      requires Valid() && fd in open
      modifies this`fs, this`zones
      ensures Valid() && Moved()
      ensures r.Ok? ==> fs[open[fd]].Symlink? && r.value == fs[open[fd]].target && 0 < |r.value| < PATH_MAX
      ensures r.Err? && !Injected(r.errno) ==> !fs[open[fd]].Symlink? || !(0 < |fs[open[fd]].target| < PATH_MAX)
    {
      Interfere();
      var f := Fault();
      if f.Some? { return Err(f.value); }
      var node := fs[open[fd]];
      r := if node.Symlink? && 0 < |node.target| < PATH_MAX then Ok(node.target) else Err(EOTHER);
    }

    /** mkdirat(2): the new directory belongs to this process until it is chowned. */
    method Mkdirat(dirFd: Fd, name: string) returns (r: Sys<Ino>)
      requires Valid() && dirFd in open
      modifies this`fs, this`zones
      ensures Valid() && Evolved(old(fs), old(zones), fs, zones)
      ensures r.Err? && quiet ==> Still()
      ensures r.Err? && quiet && !Injected(r.errno) ==>
                var d := open[dirFd];
                if !fs[d].Dir? then r.errno == ENOTDIR else name in fs[d].entries && r.errno == EEXIST
      ensures r.Ok? && quiet ==>
                var d := open[dirFd];
                && IsDir(old(fs), d) && name !in old(fs)[d].entries && r.value !in old(fs)
                && fs == WithDir(old(fs), d, name, r.value, Owner(0, 0)) && zones == ZonesWith(old(zones), d, r.value)
    {
      hide TreeShaped, Linked, Zoned, Evolved;
      Interfere();
      label acted:
      var f := Fault();
      if f.Some? { return Err(f.value); }
      var d := open[dirFd];
      if !fs[d].Dir? { return Err(ENOTDIR); }
      if name in fs[d].entries { return Err(EEXIST); }
      var n := LowestFree(fs.Keys);
      WithDirLinked(fs, d, name, n, Owner(0, 0));
      WithDirExtends(fs, d, name, n, Owner(0, 0));
      WithDirKeeps(fs, zones, d, name, n, Owner(0, 0));
      if quiet {
        WithDirKeepsShape(fs, d, name, n, Owner(0, 0));
      }
      fs, zones := WithDir(fs, d, name, n, Owner(0, 0)), ZonesWith(zones, d, n);
      EvolvedTrans(old(fs), old(zones), old@acted(fs), old@acted(zones), fs, zones);
      r := Ok(n);
    }

    /** fchownat(2) on a held descriptor. */
    method Fchown(fd: Fd, owner: Owner) returns (r: Sys<()>)
      requires Valid() && fd in open
      modifies this`fs, this`zones
      ensures Valid() && Evolved(old(fs), old(zones), fs, zones)
      ensures r.Err? ==> Injected(r.errno) && (quiet ==> Still())
      ensures r.Ok? && quiet ==> fs == WithOwner(old(fs), open[fd], owner) && zones == old(zones)
    {
      Interfere();
      label acted:
      var f := Fault();
      if f.Some? { return Err(f.value); }
      WithOwnerKeeps(fs, zones, open[fd], owner);
      if quiet {
        WithOwnerKeepsShape(fs, open[fd], owner);
      }
      fs := WithOwner(fs, open[fd], owner);
      EvolvedTrans(old(fs), old(zones), old@acted(fs), old@acted(zones), fs, zones);
      r := Ok(());
    }

    /** open(2) of a bind root by its host path. */
    method OpenRoot(path: string, dirOnly: bool) returns (r: Sys<Fd>)
      requires Valid()
      modifies this
      ensures Valid() && Moved()
      ensures r.Ok? ==>
                && path in roots && (dirOnly ==> IsDir(fs, roots[path]))
                && r.value !in old(open) && open == old(open)[r.value := roots[path]]
      ensures r.Err? ==> open == old(open)
      ensures r.Err? && !Injected(r.errno) ==> path !in roots || (dirOnly && !IsDir(fs, roots[path]))
    {
      Interfere();
      var f := Fault();
      if f.Some? { return Err(f.value); }
      if path !in roots { return Err(ENOENT); }
      var n := roots[path];
      assert n in zones && Sealed(fs, zones[n]);
      if dirOnly && !fs[n].Dir? { return Err(ENOTDIR); }
      var held := Hold(n);
      r := Ok(held);
    }

    /** openat2(2) with RESOLVE_IN_ROOT: on an unchanging tree the strict resolution; with
        interference, whatever the kernel met on the way, but never an inode outside. */
    method Openat2(rootFd: Fd, comps: seq<string>) returns (r: Sys<Fd>)
      requires Valid() && rootFd in open && open[rootFd] in zones && IsDir(fs, open[rootFd])
      modifies this
      ensures Valid() && Moved()
      ensures r.Ok? ==>
                && r.value !in old(open) && open.Keys == old(open).Keys + {r.value}
                && open == old(open)[r.value := open[r.value]]
                && open[r.value] in zones[old(open)[rootFd]]
                && (quiet ==> var o := KernelResolve(fs, old(open)[rootFd], comps);
                              o.Done? && open[r.value] == o.pos.Here())
      ensures r.Err? ==> open == old(open)
      ensures r.Err? && quiet && !Injected(r.errno) ==> KernelResolve(fs, open[rootFd], comps) == Fail(r.errno)
    {
      Interfere();
      var f := Fault();
      if f.Some? { return Err(f.value); }
      var root := open[rootFd];
      var n: Ino := *;
      if quiet {
        var o := KernelResolve(fs, root, comps);
        if o.Fail? { return Err(o.errno); }
        assert Sealed(fs, zones[root]);
        ResolveInZone(fs, zones[root], root, true, comps, MAX_LINKS);
        n := o.pos.Here();
      } else if n !in zones[root] {
        return Err(EOTHER);
      }
      assert Sealed(fs, zones[root]);
      var held := Hold(n);
      r := Ok(held);
    }
  }

  /** The lowest number not in use, as open(2) hands out descriptors. */
  method LowestFree(used: set<nat>) returns (n: nat)
    ensures n !in used && forall m :: 0 <= m < n ==> m in used
  {
    n := 0;
    ghost var ahead := used;
    while n in used
      invariant forall m :: 0 <= m < n ==> m in used
      invariant forall m :: m in used && n <= m ==> m in ahead
      decreases ahead
    {
      n, ahead := n + 1, ahead - {n};
    }
  }
}
