/** An inode tree and contained path resolution over it.

    `Resolve` is the reference meaning of a lookup with RESOLVE_IN_ROOT of openat2(2):
    it walks parent links, not a stack, so it is independent of how the fallback walk
    keeps its place. `strict` chooses between the kernel's rule (nothing, not even `..`,
    may follow a non-directory) and the fallback walk's rule (dot components may). */
module FileTree {
  import opened Text

  type Ino = nat

  datatype Owner = Owner(uid: nat, gid: nat)

  datatype Inode =
    | Dir(owner: Owner, parent: Ino, entries: map<string, Ino>)
    | Leaf(owner: Owner, regular: bool)
    | Symlink(owner: Owner, target: string)

  type Tree = map<Ino, Inode>

  const MAX_LINKS: nat := 40
  const PATH_MAX: nat := 4096

  /** Every entry leads to an inode and every parent link to a directory. */
  predicate Linked(t: Tree) {
    && (forall d {:trigger t[d].parent} :: d in t && t[d].Dir? ==> IsDir(t, t[d].parent))
    && (forall d, name {:trigger t[d].entries[name]} ::
          d in t && t[d].Dir? && name in t[d].entries ==> t[d].entries[name] in t)
  }

  predicate IsDir(t: Tree, n: Ino) {
    n in t && t[n].Dir?
  }

  predicate ChildOf(t: Tree, d: Ino, n: Ino) {
    IsDir(t, d) && exists name :: name in t[d].entries && t[d].entries[name] == n
  }

  /** A chain of entries, each element a child of the one before. */
  ghost predicate Chain(t: Tree, p: seq<Ino>) {
    forall i :: 0 <= i < |p| - 1 ==> ChildOf(t, p[i], p[i + 1])
  }

  /** The shape of a real, unshared file system: a directory has one parent, no
      directory lies below itself, and every link target is readable. */
  ghost predicate TreeShaped(t: Tree) {
    && (forall d, n :: ChildOf(t, d, n) && IsDir(t, n) ==> t[n].parent == d)
    && (forall p: seq<Ino> :: Chain(t, p) && |p| > 1 ==> p[0] != p[|p| - 1])
    && (forall n :: n in t && t[n].Symlink? ==> 0 < |t[n].target| < PATH_MAX)
  }

  datatype Errno = ENOENT | ENOTDIR | ELOOP | EEXIST | EOTHER

  /** Where a resolution stands: in a directory, or on a non-directory reached through one. */
  datatype Pos = In(dir: Ino) | On(dir: Ino, leaf: Ino) {
    function Here(): Ino { if In? then dir else leaf }
  }

  datatype Outcome = Done(pos: Pos, links: nat) | Fail(errno: Errno)

  predicate ValidPos(t: Tree, pos: Pos) {
    IsDir(t, pos.dir) && (pos.On? ==> pos.leaf in t && t[pos.leaf].Leaf?)
  }

  predicate Dots(name: string) {
    name == "" || name == "." || name == ".."
  }

  predicate IsAbs(target: string) {
    HasPrefix(target, "/")
  }

  /** What one component does: move on, with text to put in front of what is left, or stop. */
  datatype Move = Go(pos: Pos, splice: seq<string>, links: nat) | Stop(errno: Errno)

  function Step(t: Tree, root: Ino, strict: bool, pos: Pos, name: string, links: nat): (m: Move)
    requires Linked(t) && IsDir(t, root) && ValidPos(t, pos)
    ensures m.Go? ==> ValidPos(t, m.pos) && (m.links < links || (m.links == links && m.splice == []))
  {
    if pos.On? && (strict || !Dots(name)) then Stop(ENOTDIR)
    else if name == "" || name == "." then Go(pos, [], links)
    else if name == ".." then Go(Above(t, root, pos), [], links)
    else if name !in t[pos.dir].entries then Stop(ENOENT)
    else
      var n := t[pos.dir].entries[name];
      match t[n]
      case Dir(_, _, _) => Go(In(n), [], links)
      case Leaf(_, _) => Go(On(pos.dir, n), [], links)
      case Symlink(_, target) =>
        if links == 0 then Stop(ELOOP)
        else Go(if IsAbs(target) then In(root) else pos, Split(target, '/'), links - 1)
  }

  /** One `..`: off a non-directory, up a parent link, or nowhere at the root. */
  function Above(t: Tree, root: Ino, pos: Pos): (up: Pos)
    requires Linked(t) && ValidPos(t, pos)
    ensures ValidPos(t, up)
  {
    if pos.On? || pos.dir == root then In(pos.dir) else In(t[pos.dir].parent)
  }

  /** Recursive in-root resolution with `links` symlinks left to spend. */
  function Resolve(t: Tree, root: Ino, strict: bool, pos: Pos, comps: seq<string>, links: nat): (o: Outcome)
    requires Linked(t) && IsDir(t, root) && ValidPos(t, pos)
    ensures o.Done? ==> ValidPos(t, o.pos) && o.links <= links
    decreases links, |comps|
  {
    if comps == [] then Done(pos, links)
    else
      match Step(t, root, strict, pos, comps[0], links)
      case Stop(errno) => Fail(errno)
      case Go(pos', splice, links') => Resolve(t, root, strict, pos', splice + comps[1..], links')
  }

  /** What openat2(2) answers for `comps` beneath `root`. */
  function KernelResolve(t: Tree, root: Ino, comps: seq<string>): Outcome
    requires Linked(t) && IsDir(t, root)
  {
    Resolve(t, root, true, In(root), comps, MAX_LINKS)
  }

  /** What the fallback walk answers for `comps` beneath `root`. */
  function WalkResolve(t: Tree, root: Ino, comps: seq<string>): Outcome
    requires Linked(t) && IsDir(t, root)
  {
    Resolve(t, root, false, In(root), comps, MAX_LINKS)
  }

  // ---- What resolution means, component by component ----

  /** From a directory: `.` and empty components stay, `..` goes to the parent, or nowhere at
      the root. */
  lemma ResolveDot(t: Tree, root: Ino, strict: bool, d: Ino, rest: seq<string>, links: nat)
    requires Linked(t) && IsDir(t, root) && IsDir(t, d)
    ensures IsDir(t, t[d].parent)
    ensures Resolve(t, root, strict, In(d), ["."] + rest, links) == Resolve(t, root, strict, In(d), rest, links)
    ensures Resolve(t, root, strict, In(d), [""] + rest, links) == Resolve(t, root, strict, In(d), rest, links)
    ensures Resolve(t, root, strict, In(d), [".."] + rest, links)
            == Resolve(t, root, strict, In(if d == root then root else t[d].parent), rest, links)
  {
    assert (["."] + rest)[1..] == rest && ([""] + rest)[1..] == rest && ([".."] + rest)[1..] == rest;
    assert [] + rest == rest;
  }

  /** A name leads to the entry it has in that directory: on into a directory, to rest on
      anything else, or nowhere if there is no such entry. */
  lemma ResolveName(t: Tree, root: Ino, strict: bool, d: Ino, name: string, rest: seq<string>, links: nat)
    requires Linked(t) && IsDir(t, root) && IsDir(t, d) && PlainName(name)
    ensures var o := Resolve(t, root, strict, In(d), [name] + rest, links);
            if name !in t[d].entries then o == Fail(ENOENT)
            else
              var n := t[d].entries[name];
              && (t[n].Dir? ==> o == Resolve(t, root, strict, In(n), rest, links))
              && (t[n].Leaf? ==> o == Resolve(t, root, strict, On(d, n), rest, links))
  {
    assert ([name] + rest)[1..] == rest && [] + rest == rest;
  }

  /** A symlink costs one link. Its target takes the place of the name, from the root if the
      target begins with a slash, else from the directory the link is in. */
  lemma ResolveLink(t: Tree, root: Ino, strict: bool, d: Ino, name: string, rest: seq<string>, links: nat)
    requires Linked(t) && IsDir(t, root) && IsDir(t, d) && PlainName(name)
    requires name in t[d].entries && t[t[d].entries[name]].Symlink?
    ensures var target := t[t[d].entries[name]].target;
            var o := Resolve(t, root, strict, In(d), [name] + rest, links);
            && (links == 0 ==> o == Fail(ELOOP))
            && (links > 0 && target != "" && target[0] == '/' ==>
                  o == Resolve(t, root, strict, In(root), Split(target, '/') + rest, links - 1))
            && (links > 0 && (target == "" || target[0] != '/') ==>
                  o == Resolve(t, root, strict, In(d), Split(target, '/') + rest, links - 1))
  {
    assert ([name] + rest)[1..] == rest;
    assert "/"[0] == '/';
  }

  /** From a non-directory the kernel goes nowhere; the walk passes over `.` and steps back to
      the directory on `..`, and only a name stops it. */
  lemma ResolveBeyond(t: Tree, root: Ino, d: Ino, leaf: Ino, name: string, rest: seq<string>, links: nat)
    requires Linked(t) && IsDir(t, root) && ValidPos(t, On(d, leaf)) && PlainName(name)
    ensures forall c: string :: Resolve(t, root, true, On(d, leaf), [c] + rest, links) == Fail(ENOTDIR)
    ensures Resolve(t, root, false, On(d, leaf), [name] + rest, links) == Fail(ENOTDIR)
    ensures Resolve(t, root, false, On(d, leaf), ["."] + rest, links)
            == Resolve(t, root, false, On(d, leaf), [""] + rest, links)
            == Resolve(t, root, false, On(d, leaf), rest, links)
    ensures Resolve(t, root, false, On(d, leaf), [".."] + rest, links) == Resolve(t, root, false, In(d), rest, links)
  {
    assert (["."] + rest)[1..] == rest && ([""] + rest)[1..] == rest && ([".."] + rest)[1..] == rest;
    assert [] + rest == rest;
  }

  /** A path that needs so many links resolves, to the same place, exactly if it may follow as
      many; otherwise there are too many. */
  lemma {:induction false} LinkBudget(t: Tree, root: Ino, strict: bool, pos: Pos, comps: seq<string>, links: nat,
      budget: nat)
    requires Linked(t) && IsDir(t, root) && ValidPos(t, pos)
    requires Resolve(t, root, strict, pos, comps, links).Done?
    ensures var o := Resolve(t, root, strict, pos, comps, links);
            var needed := links - o.links;
            Resolve(t, root, strict, pos, comps, budget)
            == if needed <= budget then Done(o.pos, budget - needed) else Fail(ELOOP)
    decreases links, |comps|
  {
    hide Step;
    if comps != [] {
      var m := Step(t, root, strict, pos, comps[0], links);
      var m' := Step(t, root, strict, pos, comps[0], budget);
      StepBudget(t, root, strict, pos, comps[0], links, budget);
      if m'.Go? {
        LinkBudget(t, root, strict, m.pos, m.splice + comps[1..], m.links, m'.links);
      }
    }
  }

  lemma StepBudget(t: Tree, root: Ino, strict: bool, pos: Pos, name: string, links: nat, budget: nat)
    requires Linked(t) && IsDir(t, root) && ValidPos(t, pos) && Step(t, root, strict, pos, name, links).Go?
    ensures var m, m' := Step(t, root, strict, pos, name, links), Step(t, root, strict, pos, name, budget);
            if m.links == links || budget > 0
            then m'.Go? && m'.pos == m.pos && m'.splice == m.splice && links - m.links == budget - m'.links
            else m' == Stop(ELOOP)
  {
    hide Split;
  }

  /** So the walk finds whatever can be reached through at most 40 symlinks, and of such paths
      no others. */
  lemma FortyLinks(t: Tree, root: Ino, comps: seq<string>, links: nat)
    requires Linked(t) && IsDir(t, root) && Resolve(t, root, false, In(root), comps, links).Done?
    ensures var o := Resolve(t, root, false, In(root), comps, links);
            WalkResolve(t, root, comps)
            == if links - o.links <= 40 then Done(o.pos, 40 - (links - o.links)) else Fail(ELOOP)
  {
    LinkBudget(t, root, false, In(root), comps, links, 40);
  }

  /** Resolving a concatenation is resolving its halves in turn. */
  lemma {:induction false} ResolveAppend(t: Tree, root: Ino, strict: bool, pos: Pos, a: seq<string>,
      b: seq<string>, links: nat)
    requires Linked(t) && IsDir(t, root) && ValidPos(t, pos)
    ensures var o := Resolve(t, root, strict, pos, a, links);
            Resolve(t, root, strict, pos, a + b, links)
            == if o.Fail? then o else Resolve(t, root, strict, o.pos, b, o.links)
    decreases links, |a|
  {
    if a == [] {
      assert a + b == b;
    } else {
      assert (a + b)[0] == a[0] && (a + b)[1..] == a[1..] + b;
      var m := Step(t, root, strict, pos, a[0], links);
      if m.Go? {
        assert m.splice + (a[1..] + b) == (m.splice + a[1..]) + b;
        ResolveAppend(t, root, strict, m.pos, m.splice + a[1..], b, m.links);
      }
    }
  }

  /** `t'` holds everything of `t`: same inodes, directories only gain entries. */
  predicate Extends(t: Tree, t': Tree) {
    forall n :: n in t ==>
      && n in t'
      && (t[n].Dir? ==> t'[n].Dir? && t'[n].parent == t[n].parent && Keeps(t[n].entries, t'[n].entries))
      && (!t[n].Dir? ==> t'[n] == t[n])
  }

  predicate Keeps(e: map<string, Ino>, e': map<string, Ino>) {
    forall name :: name in e ==> name in e' && e'[name] == e[name]
  }

  lemma StepGrows(t: Tree, t': Tree, root: Ino, strict: bool, pos: Pos, name: string, links: nat)
    requires Linked(t) && Linked(t') && Extends(t, t') && IsDir(t, root) && ValidPos(t, pos)
    ensures var m := Step(t, root, strict, pos, name, links);
            m != Stop(ENOENT) ==> Step(t', root, strict, pos, name, links) == m
  {
    hide Split;
  }

  /** A resolution keeps its answer when the tree only grows, unless a name was missing. */
  lemma {:induction false} ResolveGrows(t: Tree, t': Tree, root: Ino, strict: bool, pos: Pos,
      comps: seq<string>, links: nat)
    requires Linked(t) && Linked(t') && Extends(t, t') && IsDir(t, root) && ValidPos(t, pos)
    ensures var o := Resolve(t, root, strict, pos, comps, links);
            o != Fail(ENOENT) ==> Resolve(t', root, strict, pos, comps, links) == o
    decreases links, |comps|
  {
    if comps != [] {
      StepGrows(t, t', root, strict, pos, comps[0], links);
      var m := Step(t, root, strict, pos, comps[0], links);
      if m.Go? {
        ResolveGrows(t, t', root, strict, m.pos, m.splice + comps[1..], m.links);
      }
    }
  }

  /** The kernel's resolution meets a dot component while standing on a non-directory. */
  predicate Stumbles(t: Tree, root: Ino, pos: Pos, comps: seq<string>, links: nat)
    requires Linked(t) && IsDir(t, root) && ValidPos(t, pos)
    decreases links, |comps|
  {
    comps != [] &&
    if pos.On? then Dots(comps[0])
    else
      var m := Step(t, root, true, pos, comps[0], links);
      m.Go? && Stumbles(t, root, m.pos, m.splice + comps[1..], m.links)
  }

  lemma {:induction false} StumbleDecides(t: Tree, root: Ino, pos: Pos, comps: seq<string>, links: nat)
    requires Linked(t) && IsDir(t, root) && ValidPos(t, pos)
    ensures Stumbles(t, root, pos, comps, links) ==> Resolve(t, root, true, pos, comps, links) == Fail(ENOTDIR)
    ensures !Stumbles(t, root, pos, comps, links) ==>
              Resolve(t, root, true, pos, comps, links) == Resolve(t, root, false, pos, comps, links)
    decreases links, |comps|
  {
    if comps != [] && pos.In? {
      var m := Step(t, root, true, pos, comps[0], links);
      if m.Go? {
        StumbleDecides(t, root, m.pos, m.splice + comps[1..], m.links);
      }
    }
  }

  /** The walk comes to a name while it stands on a non-directory. */
  predicate Trips(t: Tree, root: Ino, pos: Pos, comps: seq<string>, links: nat)
    requires Linked(t) && IsDir(t, root) && ValidPos(t, pos)
    decreases links, |comps|
  {
    comps != [] &&
    if pos.On? && !Dots(comps[0]) then true
    else
      var m := Step(t, root, false, pos, comps[0], links);
      m.Go? && Trips(t, root, m.pos, m.splice + comps[1..], m.links)
  }

  lemma {:induction false} TripDecides(t: Tree, root: Ino, pos: Pos, comps: seq<string>, links: nat)
    requires Linked(t) && IsDir(t, root) && ValidPos(t, pos)
    ensures Resolve(t, root, false, pos, comps, links) == Fail(ENOTDIR) <==> Trips(t, root, pos, comps, links)
    decreases links, |comps|
  {
    if comps != [] {
      var m := Step(t, root, false, pos, comps[0], links);
      if m.Go? {
        TripDecides(t, root, m.pos, m.splice + comps[1..], m.links);
      }
    }
  }

  /** The walk answers what openat2 answers, error for error, exactly when the path puts no
      dot component after a non-directory, or comes to a name after one all the same. It
      answers ENOTDIR exactly when it comes to such a name, and finds what openat2 finds
      exactly when there is no such dot component. */
  lemma WalkMatchesKernel(t: Tree, root: Ino, comps: seq<string>)
    requires Linked(t) && IsDir(t, root)
    ensures WalkResolve(t, root, comps) == KernelResolve(t, root, comps)
            <==> (Stumbles(t, root, In(root), comps, MAX_LINKS) ==> Trips(t, root, In(root), comps, MAX_LINKS))
    ensures WalkResolve(t, root, comps) == Fail(ENOTDIR) <==> Trips(t, root, In(root), comps, MAX_LINKS)
    ensures KernelResolve(t, root, comps).Done?
            <==> WalkResolve(t, root, comps).Done? && !Stumbles(t, root, In(root), comps, MAX_LINKS)
    ensures KernelResolve(t, root, comps) != Fail(ENOTDIR) ==>
              WalkResolve(t, root, comps) == KernelResolve(t, root, comps)
  {
    StumbleDecides(t, root, In(root), comps, MAX_LINKS);
    TripDecides(t, root, In(root), comps, MAX_LINKS);
  }

  /** On any tree whose root holds a non-directory `f` and a link `l -> f/..` the two differ. */
  lemma WalkIsLaxer(t: Tree, root: Ino, f: string, l: string)
    requires Linked(t) && IsDir(t, root)
    requires PlainName(f) && f in t[root].entries && t[t[root].entries[f]].Leaf?
    requires PlainName(l) && l in t[root].entries && t[t[root].entries[l]].Symlink?
    requires t[t[root].entries[l]].target == f + "/" + ".."
    ensures KernelResolve(t, root, [l]) == Fail(ENOTDIR)
    ensures WalkResolve(t, root, [l]) == Done(In(root), MAX_LINKS - 1)
  {
    var leaf, target := t[root].entries[f], t[t[root].entries[l]].target;
    SplitPiece("..", '/');
    SplitPrefix(f, "..", '/');
    assert Split(target, '/') == [f, ".."];
    assert !IsAbs(target) by { assert target[0] == f[0]; }
    var links := MAX_LINKS - 1;
    forall strict: bool
      ensures Resolve(t, root, strict, In(root), [l], MAX_LINKS) ==
                Resolve(t, root, strict, On(root, leaf), [".."], links)
    {
      assert Step(t, root, strict, In(root), l, MAX_LINKS) == Go(In(root), [f, ".."], links);
      assert [f, ".."] + [l][1..] == [f, ".."];
      assert Step(t, root, strict, In(root), f, links) == Go(On(root, leaf), [], links);
      assert [] + [f, ".."][1..] == [".."];
    }
    assert [] + [".."][1..] == [];
    assert Step(t, root, true, On(root, leaf), "..", links) == Stop(ENOTDIR);
    assert Step(t, root, false, On(root, leaf), "..", links) == Go(In(root), [], links);
    assert Resolve(t, root, false, In(root), [], links) == Done(In(root), links);
  }

  // ---- The stack of held directories as a position ----

  /** A stack the walk may hold: a chain of entries down from the root, no symlink on it. */
  ghost predicate OnStack(t: Tree, root: Ino, s: seq<Ino>) {
    && |s| > 0 && s[0] == root && IsDir(t, root)
    && Chain(t, s)
    && forall i :: 0 <= i < |s| ==> s[i] in t && !t[s[i]].Symlink?
  }

  function StackPos(t: Tree, s: seq<Ino>): Pos
    requires |s| > 0 && s[|s| - 1] in t
  {
    var top := s[|s| - 1];
    if t[top].Dir? || |s| == 1 then In(top) else On(s[|s| - 2], top)
  }

  lemma StackPosValid(t: Tree, root: Ino, s: seq<Ino>)
    requires OnStack(t, root, s)
    ensures ValidPos(t, StackPos(t, s))
  {
    if |s| > 1 {
      assert ChildOf(t, s[|s| - 2], s[|s| - 1]);
    }
  }

  lemma StackPrefix(t: Tree, root: Ino, s: seq<Ino>)
    requires OnStack(t, root, s) && |s| > 1
    ensures OnStack(t, root, s[..|s| - 1])
  {
    var s' := s[..|s| - 1];
    forall i | 0 <= i < |s'| - 1
      ensures ChildOf(t, s'[i], s'[i + 1])
    {
      assert ChildOf(t, s[i], s[i + 1]);
    }
  }

  /** Popping the stack is following `..`: the stack is the parent chain of its top. */
  lemma StackUp(t: Tree, root: Ino, s: seq<Ino>)
    requires Linked(t) && TreeShaped(t) && OnStack(t, root, s)
    ensures ValidPos(t, StackPos(t, s))
    ensures var s' := if |s| > 1 then s[..|s| - 1] else s;
            OnStack(t, root, s') && Above(t, root, StackPos(t, s)) == StackPos(t, s')
  {
    StackPosValid(t, root, s);
    if |s| > 1 {
      StackPrefix(t, root, s);
      assert ChildOf(t, s[|s| - 2], s[|s| - 1]);
      assert root != s[|s| - 1];
    }
  }

  /** Pushing a child that is not a symlink descends into it. */
  lemma StackDown(t: Tree, root: Ino, s: seq<Ino>, n: Ino)
    requires Linked(t) && OnStack(t, root, s) && ChildOf(t, s[|s| - 1], n) && n in t && !t[n].Symlink?
    ensures OnStack(t, root, s + [n])
    ensures StackPos(t, s + [n]) == if t[n].Dir? then In(n) else On(s[|s| - 1], n)
  {
    var s' := s + [n];
    forall i | 0 <= i < |s'| - 1
      ensures ChildOf(t, s'[i], s'[i + 1])
    {
      if i < |s| - 1 {
        assert ChildOf(t, s[i], s[i + 1]);
      }
    }
  }

  lemma StackRoot(t: Tree, root: Ino)
    requires IsDir(t, root)
    ensures OnStack(t, root, [root]) && StackPos(t, [root]) == In(root)
  {
  }

  /** Wherever a resolution from a stack ends, some stack leads there. */
  lemma {:induction false} ResolveStack(t: Tree, root: Ino, strict: bool, s: seq<Ino>, comps: seq<string>, links: nat)
      returns (end: seq<Ino>)
    requires Linked(t) && TreeShaped(t) && OnStack(t, root, s) && ValidPos(t, StackPos(t, s))
    ensures var o := Resolve(t, root, strict, StackPos(t, s), comps, links);
            o.Done? ==> OnStack(t, root, end) && StackPos(t, end) == o.pos
    decreases links, |comps|
  {
    hide TreeShaped, Chain;
    end := s;
    if comps != [] {
      var pos := StackPos(t, s);
      var m := Step(t, root, strict, pos, comps[0], links);
      if m.Go? {
        var s' := s;
        if comps[0] == ".." {
          StackUp(t, root, s);
          s' := if |s| > 1 then s[..|s| - 1] else s;
        } else if !Dots(comps[0]) {
          var n := t[pos.dir].entries[comps[0]];
          assert ChildOf(t, s[|s| - 1], n);
          if t[n].Symlink? {
            StackRoot(t, root);
            s' := if IsAbs(t[n].target) then [root] else s;
          } else {
            StackDown(t, root, s, n);
            s' := s + [n];
          }
        }
        end := ResolveStack(t, root, strict, s', m.splice + comps[1..], m.links);
      }
    }
  }
}
