/** The fallback resolver of pkg/dind/bindpin_linux.go: a walk over held descriptors. */
module BindWalk {
  import opened Text
  import opened FileTree
  import opened Kernel

  /** The conservation law of every opener: one new descriptor on success, none on failure. */
  ghost predicate Opens(before: map<Fd, Ino>, after: map<Fd, Ino>, r: Sys<Fd>) {
    match r
    case Ok(fd) => fd !in before && fd in after && after == before[fd := after[fd]]
    case Err(_) => after == before
  }

  ghost predicate Distinct(fds: seq<Fd>) {
    forall i, j :: 0 <= i < j < |fds| ==> fds[i] != fds[j]
  }

  ghost function FdSet(fds: seq<Fd>): set<Fd> {
    set fd | fd in fds
  }

  /** `after` is `before` and the descriptors of `stack`, each open exactly once. */
  ghost predicate Holding(before: map<Fd, Ino>, after: map<Fd, Ino>, stack: seq<Fd>) {
    && Distinct(stack)
    && before.Keys !! FdSet(stack)
    && after.Keys == before.Keys + FdSet(stack)
    && after - FdSet(stack) == before
  }

  ghost function Nodes(open: map<Fd, Ino>, stack: seq<Fd>): (nodes: seq<Ino>)
    ensures |nodes| == |stack|
    ensures forall i :: 0 <= i < |stack| && stack[i] in open ==> nodes[i] == open[stack[i]]
  {
    seq(|stack|, i requires 0 <= i < |stack| => if stack[i] in open then open[stack[i]] else 0)
  }

  /** Everything held on the stack is inside the zone of the bind root. */
  ghost predicate Inside(t: Tree, zones: Zones, root: Ino, open: map<Fd, Ino>, stack: seq<Fd>) {
    && root in zones && IsDir(t, root)
    && forall fd :: fd in stack ==> fd in open && open[fd] in zones[root]
  }

  lemma InsideEvolves(t: Tree, z: Zones, t': Tree, z': Zones, root: Ino, open: map<Fd, Ino>, stack: seq<Fd>)
    requires Inside(t, z, root, open, stack) && Evolved(t, z, t', z')
    ensures Inside(t', z', root, open, stack)
  {
    assert SameKind(t[root], t'[root]);
  }

  method CloseAll(k: Host, fds: seq<Fd>)
    requires k.Valid() && Distinct(fds) && forall fd :: fd in fds ==> fd in k.open
    modifies k`open
    ensures k.Valid() && k.open == old(k.open) - FdSet(fds)
  {
    for i := 0 to |fds|
      invariant k.Valid() && k.open == old(k.open) - FdSet(fds[..i])
    {
      assert fds[i] !in fds[..i];
      k.Close(fds[i]);
      assert fds[..i + 1] == fds[..i] + [fds[i]];
      assert FdSet(fds[..i + 1]) == FdSet(fds[..i]) + {fds[i]};
    }
    assert fds[..|fds|] == fds;
  }

  /** Open one component without following it and stat what was opened. */
  method Enter(k: Host, dirFd: Fd, name: string) returns (r: Sys<Fd>, node: Inode)
    requires k.Valid() && dirFd in k.open
    modifies k
    ensures k.Valid() && k.Moved()
    ensures Opens(old(k.open), k.open, r)
    ensures r.Ok? ==> node == k.fs[k.open[r.value]]
    ensures r.Ok? ==> NoEscape(k.fs, k.zones, old(k.open)[dirFd], k.open[r.value])
    ensures r.Ok? && k.quiet ==>
              var d := old(k.open)[dirFd];
              IsDir(k.fs, d) && name in k.fs[d].entries && k.fs[d].entries[name] == k.open[r.value]
    ensures r.Err? && k.quiet && !k.Injected(r.errno) ==>
              var d := k.open[dirFd];
              if !k.fs[d].Dir? then r.errno == ENOTDIR else name !in k.fs[d].entries && r.errno == ENOENT
  {
    hide Linked, TreeShaped, Zoned, Evolved, NoEscape;
    node := Leaf(Owner(0, 0), false);
    r := k.Openat(dirFd, name, false);
    if r.Err? { return; }
    var next := r.value;
    ghost var d, fs1, zones1 := k.open[dirFd], k.fs, k.zones;
    EntryNoEscape(fs1, zones1, d, name);
    var st := k.Fstat(next);
    EvolvedTrans(old(k.fs), old(k.zones), fs1, zones1, k.fs, k.zones);
    NoEscapeEvolves(fs1, zones1, k.fs, k.zones, d, k.open[next]);
    if st.Err? {
      k.Close(next);
      return Err(st.errno), node;
    }
    node := st.value;
  }

  // ---- What pushing and popping do to the descriptors held ----

  lemma HoldingPush(before: map<Fd, Ino>, after: map<Fd, Ino>, stack: seq<Fd>, fd: Fd, n: Ino)
    requires Holding(before, after, stack) && fd !in after
    ensures Holding(before, after[fd := n], stack + [fd])
    ensures Nodes(after[fd := n], stack + [fd]) == Nodes(after, stack) + [n]
  {
    assert FdSet(stack + [fd]) == FdSet(stack) + {fd};
  }

  lemma HoldingAll(before: map<Fd, Ino>, after: map<Fd, Ino>, stack: seq<Fd>)
    requires Holding(before, after, stack)
    ensures Distinct(stack) && (forall fd :: fd in stack ==> fd in after) && after - FdSet(stack) == before
  {
  }

  lemma HoldingPop(before: map<Fd, Ino>, after: map<Fd, Ino>, stack: seq<Fd>, i: nat)
    requires Holding(before, after, stack) && i <= |stack|
    ensures Distinct(stack[i..]) && forall fd :: fd in stack[i..] ==> fd in after
    ensures Holding(before, after - FdSet(stack[i..]), stack[..i])
    ensures Nodes(after - FdSet(stack[i..]), stack[..i]) == Nodes(after, stack)[..i]
  {
    assert FdSet(stack) == FdSet(stack[..i]) + FdSet(stack[i..]) by {
      assert stack == stack[..i] + stack[i..];
    }
    assert FdSet(stack[..i]) !! FdSet(stack[i..]);
    var after' := after - FdSet(stack[i..]);
    assert after' - FdSet(stack[..i]) == after - FdSet(stack);
  }

  lemma HoldingTop(t: Tree, zones: Zones, root: Ino, before: map<Fd, Ino>, after: map<Fd, Ino>, stack: seq<Fd>)
    requires Holding(before, after, stack) && Inside(t, zones, root, after, stack) && |stack| > 0
    ensures root in zones && stack[|stack| - 1] in after && after[stack[|stack| - 1]] in zones[root]
    ensures var below, top := stack[..|stack| - 1], stack[|stack| - 1];
            && Distinct(below) && top !in below && (forall fd :: fd in below ==> fd in after)
            && Opens(before, after - FdSet(below), Ok(top))
            && (after - FdSet(below))[top] == after[top]
  {
    var below, top := stack[..|stack| - 1], stack[|stack| - 1];
    assert FdSet(stack) == FdSet(below) + {top} by {
      assert stack == below + [top];
    }
    var final := after - FdSet(below);
    assert final == before[top := after[top]];
  }

  // ---- What each component does to the meaning of the loop ----

  /** What is left, from where the stack stands, is the whole answer. */
  ghost predicate WalkInv(t: Tree, root: Ino, comps: seq<string>, nodes: seq<Ino>, remaining: seq<string>, links: nat) {
    && Linked(t) && OnStack(t, root, nodes) && ValidPos(t, StackPos(t, nodes))
    && WalkResolve(t, root, comps) == Resolve(t, root, false, StackPos(t, nodes), remaining, links)
  }

  lemma WalkStart(t: Tree, root: Ino, comps: seq<string>)
    requires Linked(t) && IsDir(t, root)
    ensures WalkInv(t, root, comps, [root], comps, MAX_LINKS)
  {
    StackRoot(t, root);
  }

  lemma WalkEnd(t: Tree, root: Ino, comps: seq<string>, nodes: seq<Ino>, links: nat)
    requires WalkInv(t, root, comps, nodes, [], links)
    ensures |nodes| > 0 && IsDir(t, root)
    ensures var o := WalkResolve(t, root, comps); o.Done? && o.pos.Here() == nodes[|nodes| - 1]
  {
  }

  lemma WalkDots(t: Tree, root: Ino, comps: seq<string>, nodes: seq<Ino>, remaining: seq<string>, links: nat)
    requires WalkInv(t, root, comps, nodes, remaining, links) && TreeShaped(t)
    requires |remaining| > 0 && Dots(remaining[0])
    ensures var nodes' := if remaining[0] == ".." && |nodes| > 1 then nodes[..|nodes| - 1] else nodes;
            WalkInv(t, root, comps, nodes', remaining[1..], links)
  {
    hide TreeShaped, Chain, Linked;
    StackUp(t, root, nodes);
    if remaining[0] == ".." {
      StackPosValid(t, root, if |nodes| > 1 then nodes[..|nodes| - 1] else nodes);
    }
    assert [] + remaining[1..] == remaining[1..];
  }

  lemma WalkStops(t: Tree, root: Ino, comps: seq<string>, nodes: seq<Ino>, remaining: seq<string>, links: nat)
    requires WalkInv(t, root, comps, nodes, remaining, links)
    requires |remaining| > 0 && !Dots(remaining[0])
    ensures |nodes| > 0 && IsDir(t, root) && nodes[|nodes| - 1] in t
    ensures var d := nodes[|nodes| - 1];
            if !t[d].Dir? then WalkResolve(t, root, comps) == Fail(ENOTDIR)
            else remaining[0] !in t[d].entries ==> WalkResolve(t, root, comps) == Fail(ENOENT)
  {
  }

  lemma WalkDown(t: Tree, root: Ino, comps: seq<string>, nodes: seq<Ino>, remaining: seq<string>, links: nat, n: Ino)
    requires WalkInv(t, root, comps, nodes, remaining, links)
    requires |remaining| > 0 && !Dots(remaining[0])
    requires var d := nodes[|nodes| - 1]; IsDir(t, d) && remaining[0] in t[d].entries && t[d].entries[remaining[0]] == n
    requires n in t && !t[n].Symlink?
    ensures WalkInv(t, root, comps, nodes + [n], remaining[1..], links)
  {
    assert ChildOf(t, nodes[|nodes| - 1], n);
    StackDown(t, root, nodes, n);
    StackPosValid(t, root, nodes + [n]);
    assert [] + remaining[1..] == remaining[1..];
  }

  lemma WalkLink(t: Tree, root: Ino, comps: seq<string>, nodes: seq<Ino>, remaining: seq<string>, links: nat, n: Ino)
    requires WalkInv(t, root, comps, nodes, remaining, links)
    requires |remaining| > 0 && !Dots(remaining[0])
    requires var d := nodes[|nodes| - 1]; IsDir(t, d) && remaining[0] in t[d].entries && t[d].entries[remaining[0]] == n
    requires n in t && t[n].Symlink?
    ensures IsDir(t, root)
    ensures links == 0 ==> WalkResolve(t, root, comps) == Fail(ELOOP)
    ensures links > 0 ==>
              var nodes' := if IsAbs(t[n].target) then nodes[..1] else nodes;
              WalkInv(t, root, comps, nodes', Split(t[n].target, '/') + remaining[1..], links - 1)
  {
    StackRoot(t, root);
    assert nodes[..1] == [root];
  }

  // ---- Bookkeeping of one iteration ----

  lemma WalkBegins(t: Tree, z: Zones, t': Tree, z': Zones, open: map<Fd, Ino>, rootFd: Fd, fd: Fd, comps: seq<string>)
    requires Linked(t') && Zoned(t', z') && Evolved(t, z, t', z')
    requires rootFd in open && open[rootFd] in z && IsDir(t, open[rootFd]) && fd !in open
    ensures var root, open' := open[rootFd], open[fd := open[rootFd]];
            && root in z' && IsDir(t', root)
            && Holding(open, open', [fd]) && Inside(t', z', root, open', [fd]) && Nodes(open', [fd]) == [root]
            && WalkInv(t', root, comps, [root], comps, MAX_LINKS)
  {
    assert SameKind(t[open[rootFd]], t'[open[rootFd]]);
    assert FdSet([fd]) == {fd};
    WalkStart(t', open[rootFd], comps);
  }

  lemma Pushes(t: Tree, zones: Zones, root: Ino, before: map<Fd, Ino>, open: map<Fd, Ino>, stack: seq<Fd>,
      fd: Fd, n: Ino)
    requires Holding(before, open, stack) && Inside(t, zones, root, open, stack) && |stack| > 0 && fd !in open
    requires stack[|stack| - 1] in open && NoEscape(t, zones, open[stack[|stack| - 1]], n) && !t[n].Symlink?
    ensures Holding(before, open[fd := n], stack + [fd]) && Inside(t, zones, root, open[fd := n], stack + [fd])
    ensures Nodes(open[fd := n], stack + [fd]) == Nodes(open, stack) + [n]
  {
    HoldingPush(before, open, stack, fd, n);
  }

  lemma Pops(t: Tree, zones: Zones, root: Ino, before: map<Fd, Ino>, open: map<Fd, Ino>, stack: seq<Fd>, i: nat)
    requires Holding(before, open, stack) && Inside(t, zones, root, open, stack) && i <= |stack|
    ensures Distinct(stack[i..]) && forall fd :: fd in stack[i..] ==> fd in open
    ensures var open' := open - FdSet(stack[i..]);
            && Holding(before, open', stack[..i]) && Inside(t, zones, root, open', stack[..i])
            && Nodes(open', stack[..i]) == Nodes(open, stack)[..i]
  {
    HoldingPop(before, open, stack, i);
  }

  /** The loop invariant: the stack is all the walk holds, all of it is inside, and on an
      unchanging tree the stack and the queue together still stand for the whole answer. */
  ghost predicate Walking(k: Host, root: Ino, before: map<Fd, Ino>, comps: seq<string>,
      stack: seq<Fd>, queue: seq<string>, links: nat)
    reads k
  {
    && |stack| > 0 && links <= MAX_LINKS
    && Holding(before, k.open, stack) && Inside(k.fs, k.zones, root, k.open, stack)
    && (k.quiet ==> WalkInv(k.fs, root, comps, Nodes(k.open, stack), queue, MAX_LINKS - links))
  }

  /** How a component can fail: nothing of the walk stays open, and the answer is the error. */
  ghost predicate Failed(k: Host, root: Ino, before: map<Fd, Ino>, comps: seq<string>, errno: Errno)
    reads k
  {
    && k.open == before
    && (k.quiet && !k.Injected(errno) ==>
          Linked(k.fs) && IsDir(k.fs, root) && WalkResolve(k.fs, root, comps) == Fail(errno))
  }

  /** A `..` component: step back to the directory held below the top, if there is one. */
  method StepBack(k: Host, queue: seq<string>, stack: seq<Fd>, ghost links: nat, ghost root: Ino,
      ghost before: map<Fd, Ino>, ghost comps: seq<string>) returns (stack': seq<Fd>)
    requires k.Valid() && |queue| > 0 && queue[0] == ".."
    requires Walking(k, root, before, comps, stack, queue, links)
    modifies k`open
    ensures k.Valid() && Walking(k, root, before, comps, stack', queue[1..], links)
  {
    hide Linked, TreeShaped, Zoned, Evolved, Holding, WalkInv, Inside;
    if k.quiet {
      WalkDots(k.fs, root, comps, Nodes(k.open, stack), queue, MAX_LINKS - links);
    }
    stack' := stack;
    if |stack| > 1 {
      Pops(k.fs, k.zones, root, before, k.open, stack, |stack| - 1);
      assert FdSet(stack[|stack| - 1..]) == {stack[|stack| - 1]};
      k.Close(stack[|stack| - 1]);
      stack' := stack[..|stack| - 1];
    }
  }

  /** A symlink, held open as `fd`: read its target, let go of it, and go back to the root
      if the target is absolute. */
  method FollowLink(k: Host, fd: Fd, queue: seq<string>, stack: seq<Fd>, links: nat, ghost root: Ino,
      ghost before: map<Fd, Ino>, ghost comps: seq<string>) returns (r: Sys<seq<string>>, stack': seq<Fd>)
    requires k.Valid() && |queue| > 0 && |stack| > 0 && links < MAX_LINKS && fd in k.open
    requires Holding(before, k.open - {fd}, stack) && Inside(k.fs, k.zones, root, k.open - {fd}, stack)
    requires k.quiet ==>
               && k.fs[k.open[fd]].Symlink?
               && var nodes := Nodes(k.open - {fd}, stack);
               && var target := k.fs[k.open[fd]].target;
               WalkInv(k.fs, root, comps, if IsAbs(target) then nodes[..1] else nodes,
                       Split(target, '/') + queue[1..], MAX_LINKS - links - 1)
    modifies k
    ensures k.Valid() && k.Moved()
    ensures r.Err? ==> Failed(k, root, before, comps, r.errno)
    ensures r.Ok? ==> Walking(k, root, before, comps, stack', r.value + queue[1..], links + 1)
  {
    hide Linked, Zoned, Evolved, Holding, Inside, WalkInv, Nodes, WalkResolve;
    stack' := stack;
    ghost var nodes := Nodes(k.open - {fd}, stack);
    var target := k.Readlink(fd);
    InsideEvolves(old(k.fs), old(k.zones), k.fs, k.zones, root, k.open - {fd}, stack);
    k.Close(fd);
    HoldingAll(before, k.open, stack);
    if target.Err? {
      CloseAll(k, stack);
      return Err(target.errno), stack;
    }
    if IsAbs(target.value) {
      Pops(k.fs, k.zones, root, before, k.open, stack, 1);
      CloseAll(k, stack[1..]);
      stack' := stack[..1];
    }
    r := Ok(Split(target.value, '/'));
  }

  /** A named component: open it, then descend into it or expand it. */
  method StepInto(k: Host, queue: seq<string>, stack: seq<Fd>, links: nat, ghost root: Ino,
      ghost before: map<Fd, Ino>, ghost comps: seq<string>)
      returns (r: Sys<seq<string>>, stack': seq<Fd>, links': nat)
    requires k.Valid() && |queue| > 0 && !Dots(queue[0])
    requires Walking(k, root, before, comps, stack, queue, links)
    modifies k
    ensures k.Valid() && k.Moved()
    ensures r.Err? ==> Failed(k, root, before, comps, r.errno)
    ensures r.Ok? ==> links' == links + 1 || (links' == links && r.value == [])
    ensures r.Ok? ==> Walking(k, root, before, comps, stack', r.value + queue[1..], links')
  {
    hide Linked, TreeShaped, Zoned, Evolved, NoEscape, Holding, WalkInv, Inside, Resolve, WalkResolve, Nodes,
      Host.Valid;
    r, stack', links' := Ok([]), stack, links;
    ghost var nodes := Nodes(k.open, stack);
    HoldingAll(before, k.open, stack);
    var next, node := Enter(k, stack[|stack| - 1], queue[0]);
    InsideEvolves(old(k.fs), old(k.zones), k.fs, k.zones, root, old(k.open), stack);
    k.ValidFacts();
    if k.quiet {
      WalkStops(k.fs, root, comps, nodes, queue, MAX_LINKS - links);
    }
    if next.Err? {
      CloseAll(k, stack);
      return Err(next.errno), stack, links;
    }
    ghost var n := k.open[next.value];
    if !node.Symlink? {
      if k.quiet {
        WalkDown(k.fs, root, comps, nodes, queue, MAX_LINKS - links, n);
      }
      Pushes(k.fs, k.zones, root, before, old(k.open), stack, next.value, n);
      stack' := stack + [next.value];
      assert [] + queue[1..] == queue[1..];
      return;
    }
    if k.quiet {
      WalkLink(k.fs, root, comps, nodes, queue, MAX_LINKS - links, n);
    }
    assert k.open - {next.value} == old(k.open);
    links' := links + 1;
    if links' > MAX_LINKS {
      k.Close(next.value);
      CloseAll(k, stack);
      return Err(ELOOP), stack, links';
    }
    ghost var fs1, zones1 := k.fs, k.zones;
    r, stack' := FollowLink(k, next.value, queue, stack, links, root, before, comps);
    EvolvedTrans(old(k.fs), old(k.zones), fs1, zones1, k.fs, k.zones);
  }

  /** The walk: a stack of held directories, a queue of components, at most 40 links.
      However the tree moves under it, what it returns is inside; on an unchanging tree it
      is exactly the recursive resolution, result and error alike. */
  method ResolveBeneathWalk(k: Host, rootFd: Fd, comps: seq<string>) returns (r: Sys<Fd>)
    requires k.Valid() && rootFd in k.open && k.open[rootFd] in k.zones && IsDir(k.fs, k.open[rootFd])
    modifies k
    ensures k.Valid() && k.Moved()
    ensures Opens(old(k.open), k.open, r)
    ensures r.Ok? ==> k.open[r.value] in k.zones[old(k.open)[rootFd]]
    ensures r.Ok? && k.quiet ==>
              var o := WalkResolve(k.fs, old(k.open)[rootFd], comps);
              o.Done? && k.open[r.value] == o.pos.Here()
    ensures r.Err? && k.quiet && !k.Injected(r.errno) ==>
              WalkResolve(k.fs, old(k.open)[rootFd], comps) == Fail(r.errno)
  {
    hide Linked, TreeShaped, Zoned, Evolved, Holding, WalkInv, Inside, Host.Valid, Resolve, WalkResolve;
    ghost var root := k.open[rootFd];
    var dup := k.Dup(rootFd);
    if dup.Err? { return Err(dup.errno); }
    var stack := [dup.value];
    var remaining := comps;
    var links := 0;
    k.ValidFacts();
    WalkBegins(old(k.fs), old(k.zones), k.fs, k.zones, old(k.open), rootFd, dup.value, comps);
    while |remaining| > 0
      invariant k.Valid() && k.Moved() && links <= MAX_LINKS
      invariant Walking(k, root, old(k.open), comps, stack, remaining, links)
      decreases MAX_LINKS - links, |remaining|
    {
      var name := remaining[0];
      if name == "" || name == "." {
        k.ValidFacts();
        if k.quiet {
          WalkDots(k.fs, root, comps, Nodes(k.open, stack), remaining, MAX_LINKS - links);
        }
        remaining := remaining[1..];
      } else if name == ".." {
        stack := StepBack(k, remaining, stack, links, root, old(k.open), comps);
        remaining := remaining[1..];
      } else {
        ghost var fs0, zones0 := k.fs, k.zones;
        var splice;
        splice, stack, links := StepInto(k, remaining, stack, links, root, old(k.open), comps);
        EvolvedTrans(old(k.fs), old(k.zones), fs0, zones0, k.fs, k.zones);
        if splice.Err? { return Err(splice.errno); }
        remaining := splice.value + remaining[1..];
      }
    }
    k.ValidFacts();
    if k.quiet {
      WalkEnd(k.fs, root, comps, Nodes(k.open, stack), MAX_LINKS - links);
    }
    HoldingTop(k.fs, k.zones, root, old(k.open), k.open, stack);
    var result := stack[|stack| - 1];
    CloseAll(k, stack[..|stack| - 1]);
    r := Ok(result);
  }
}
