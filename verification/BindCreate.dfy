/** Contained resolution with either resolver, and the creation of a missing tail
    (resolveBeneath, createBeneath and createUnder of pkg/dind/bindpin_linux.go). */
module BindCreate {
  import opened Text
  import opened FileTree
  import opened Kernel
  import opened BindWalk

  /** Exactly the tail `missing` was made below `d`: a chain of new directories, all of
      them owned by `owner`, and nothing else in the tree differs. */
  ghost predicate TailMade(t: Tree, t': Tree, d: Ino, missing: seq<string>, inos: seq<Ino>, owner: Owner) {
    && |inos| == |missing| && IsDir(t, d)
    && TailFresh(t, t', inos)
    && (forall n :: n in t && n != d ==> t'[n] == t[n])
    && t'[d] == (if inos == [] then t[d] else t[d].(entries := t[d].entries[missing[0] := inos[0]]))
    && (inos != [] ==> missing[0] !in t[d].entries)
    && TailChain(t', d, missing, inos, owner)
  }

  /** The inodes of `t'` are those of `t` and, apart from them and each other, `inos`. */
  ghost predicate TailFresh(t: Tree, t': Tree, inos: seq<Ino>) {
    && (forall i, j :: 0 <= i < j < |inos| ==> inos[i] != inos[j])
    && (forall i :: 0 <= i < |inos| ==> inos[i] !in t)
    && (forall n :: n in t' <==> n in t || n in inos)
  }

  ghost predicate TailChain(t': Tree, d: Ino, missing: seq<string>, inos: seq<Ino>, owner: Owner)
    requires |inos| == |missing|
  {
    forall i :: 0 <= i < |inos| ==> TailAt(t', d, missing, inos, owner, i)
  }

  ghost predicate TailAt(t': Tree, d: Ino, missing: seq<string>, inos: seq<Ino>, owner: Owner, i: nat)
    requires i < |inos| == |missing|
  {
    inos[i] in t' && t'[inos[i]] == TailDir(d, missing, inos, owner, i)
  }

  /** The i-th directory of the tail: its parent, and the next one as its only entry. */
  ghost function TailDir(d: Ino, missing: seq<string>, inos: seq<Ino>, owner: Owner, i: nat): Inode
    requires i < |inos| == |missing|
  {
    Dir(owner, TailEnd(d, inos[..i]), if i + 1 < |inos| then map[missing[i + 1] := inos[i + 1]] else map[])
  }

  /** The directory the next component of the tail goes into. */
  ghost function TailEnd(d: Ino, inos: seq<Ino>): Ino {
    if inos == [] then d else inos[|inos| - 1]
  }

  lemma TailNone(t: Tree, d: Ino, owner: Owner)
    requires IsDir(t, d)
    ensures TailMade(t, t, d, [], [], owner)
  {
  }

  lemma TailGrows(t: Tree, t': Tree, d: Ino, missing: seq<string>, inos: seq<Ino>, owner: Owner, name: string, n: Ino)
    requires TailMade(t, t', d, missing, inos, owner) && n !in t'
    requires IsDir(t', TailEnd(d, inos)) && name !in t'[TailEnd(d, inos)].entries
    ensures TailMade(t, WithDir(t', TailEnd(d, inos), name, n, owner), d, missing + [name], inos + [n], owner)
  {
    var t'' := WithDir(t', TailEnd(d, inos), name, n, owner);
    assert TailFresh(t, t'', inos + [n]);
    TailChainGrows(t, t', d, missing, inos, owner, name, n);
  }

  lemma TailChainGrows(t: Tree, t': Tree, d: Ino, missing: seq<string>, inos: seq<Ino>, owner: Owner,
      name: string, n: Ino)
    requires |inos| == |missing| && TailFresh(t, t', inos) && TailChain(t', d, missing, inos, owner)
    requires n !in t' && d in t && IsDir(t', TailEnd(d, inos)) && name !in t'[TailEnd(d, inos)].entries
    ensures TailChain(WithDir(t', TailEnd(d, inos), name, n, owner), d, missing + [name], inos + [n], owner)
  {
    hide TailFresh;
    var t'' := WithDir(t', TailEnd(d, inos), name, n, owner);
    var missing', inos' := missing + [name], inos + [n];
    forall i | 0 <= i < |inos'|
      ensures TailAt(t'', d, missing', inos', owner, i)
    {
      if i < |inos| {
        assert inos'[..i] == inos[..i];
        assert TailAt(t', d, missing, inos, owner, i);
        TailApart(t, t', inos, i);
        assert map[][name := n] == map[name := n];
      } else {
        assert inos'[..i] == inos;
      }
    }
  }

  lemma TailApart(t: Tree, t': Tree, inos: seq<Ino>, i: nat)
    requires TailFresh(t, t', inos) && i < |inos|
    ensures i + 1 < |inos| ==> inos[i] != inos[|inos| - 1]
    ensures inos[i] !in t
  {
  }

  /** Each name of the tail is the one entry that leads from its directory to the next. */
  lemma TailEntry(t: Tree, t': Tree, d: Ino, missing: seq<string>, inos: seq<Ino>, owner: Owner, i: nat)
    requires TailMade(t, t', d, missing, inos, owner) && i <= |missing|
    ensures IsDir(t', TailEnd(d, inos[..i]))
    ensures i < |missing| ==>
              && missing[i] in t'[TailEnd(d, inos[..i])].entries
              && t'[TailEnd(d, inos[..i])].entries[missing[i]] == inos[i]
              && IsDir(t', inos[i])
  {
    hide TailFresh;
    if i > 0 {
      assert TailAt(t', d, missing, inos, owner, i - 1);
      assert TailEnd(d, inos[..i]) == inos[i - 1];
    } else {
      assert TailFresh(t, t', inos);
      TailKeeps(t, t', inos, d);
    }
    if i < |missing| {
      assert TailAt(t', d, missing, inos, owner, i);
    }
  }

  lemma TailKeeps(t: Tree, t': Tree, inos: seq<Ino>, n: Ino)
    requires TailFresh(t, t', inos) && n in t
    ensures n in t'
  {
  }

  lemma TailExtends(t: Tree, t': Tree, d: Ino, missing: seq<string>, inos: seq<Ino>, owner: Owner)
    requires TailMade(t, t', d, missing, inos, owner)
    ensures Extends(t, t')
  {
  }

  /** Below `d` the made tail resolves, name by name, to its last directory. */
  lemma {:induction false} TailResolves(t: Tree, t': Tree, root: Ino, strict: bool, d: Ino, missing: seq<string>,
      inos: seq<Ino>, owner: Owner, i: nat, links: nat)
    requires |inos| == |missing| && TailMade(t, t', d, missing, inos, owner) && Linked(t') && IsDir(t', root)
    requires forall c :: c in missing ==> PlainName(c)
    requires i <= |missing|
    ensures IsDir(t', TailEnd(d, inos[..i]))
    ensures Resolve(t', root, strict, In(TailEnd(d, inos[..i])), missing[i..], links)
            == Done(In(TailEnd(d, inos)), links)
    decreases |missing| - i
  {
    hide TailMade, Linked;
    TailEntry(t, t', d, missing, inos, owner, i);
    if i == |missing| {
      assert inos[..i] == inos;
    } else {
      assert TailEnd(d, inos[..i + 1]) == inos[i];
      assert PlainName(missing[i]) && missing[i..][0] == missing[i] && [] + missing[i..][1..] == missing[i + 1..];
      TailResolves(t, t', root, strict, d, missing, inos, owner, i + 1, links);
    }
  }

  lemma TailLength(t: Tree, t': Tree, d: Ino, missing: seq<string>, inos: seq<Ino>, owner: Owner)
    requires TailMade(t, t', d, missing, inos, owner)
    ensures |inos| == |missing| && TailEnd(d, []) == d
  {
  }

  lemma ExtendsDir(t: Tree, t': Tree, n: Ino)
    requires Extends(t, t') && IsDir(t, n)
    ensures IsDir(t', n)
  {
  }

  /** Once its tail is made, the whole path resolves to the tail's last directory. */
  lemma PathResolves(t: Tree, t': Tree, root: Ino, strict: bool, comps: seq<string>, i: nat, d: Ino,
      inos: seq<Ino>, owner: Owner, links: nat)
    requires Linked(t) && Linked(t') && IsDir(t, root) && i <= |comps|
    requires forall c :: c in comps ==> PlainName(c)
    requires Resolve(t, root, strict, In(root), comps[..i], MAX_LINKS) == Done(In(d), links)
    requires TailMade(t, t', d, comps[i..], inos, owner)
    ensures IsDir(t', root)
    ensures Resolve(t', root, strict, In(root), comps, MAX_LINKS) == Done(In(TailEnd(d, inos)), links)
  {
    hide TailMade, Linked, Resolve, Extends, TailEnd, PlainName;
    assert |inos| == |comps[i..]| by { TailLength(t, t', d, comps[i..], inos, owner); }
    TailExtends(t, t', d, comps[i..], inos, owner);
    assert IsDir(t', root) by { ExtendsDir(t, t', root); }
    ResolveGrows(t, t', root, strict, In(root), comps[..i], MAX_LINKS);
    assert comps == comps[..i] + comps[i..];
    ResolveAppend(t', root, strict, In(root), comps[..i], comps[i..], MAX_LINKS);
    TailResolves(t, t', root, strict, d, comps[i..], inos, owner, 0, links);
    assert inos[..0] == [] && comps[i..][0..] == comps[i..];
    TailLength(t, t', d, comps[i..], inos, owner);
  }

  /** Nothing but directories came to be, all of them inside every zone `d` is inside, and
      of the inodes there were only `d` gained entries. */
  ghost predicate OnlyAdds(t: Tree, z: Zones, t': Tree, z': Zones, d: Ino) {
    && Extends(t, t') && IsDir(t, d) && t'[d].owner == t[d].owner
    && (forall n :: n in t && n != d ==> t'[n] == t[n])
    && z'.Keys == z.Keys
    && forall n :: n in t' && n !in t ==>
         t'[n].Dir? && forall root :: root in z && d in z[root] ==> n in z'[root]
  }

  lemma AddsOne(t: Tree, z: Zones, t': Tree, z': Zones, d: Ino, at: Ino, name: string, n: Ino, owner: Owner)
    requires OnlyAdds(t, z, t', z', d) && (at == d || at !in t) && n !in t'
    requires forall root :: root in z && d in z[root] ==> d in z'[root]
    requires IsDir(t', at) && name !in t'[at].entries
    ensures OnlyAdds(t, z, WithDir(t', at, name, n, owner), ZonesWith(z', at, n), d)
  {
  }

  /** One new directory, and the zones that hold its parent. */
  ghost predicate Adds(t: Tree, z: Zones, t': Tree, z': Zones, d: Ino, name: string, n: Ino, owner: Owner) {
    && n !in t && Lacks(t, d, name)
    && t' == WithDir(t, d, name, n, owner) && z' == ZonesWith(z, d, n)
  }

  ghost predicate Lacks(t: Tree, d: Ino, name: string) {
    IsDir(t, d) && name !in t[d].entries
  }

  /** Something that is not a directory, say a dangling symlink, has the name already. */
  ghost predicate Blocked(t: Tree, d: Ino, name: string) {
    IsDir(t, d) && name in t[d].entries && !IsDir(t, t[d].entries[name])
  }

  /** Whatever was there already: nothing that is not a directory changes, a directory keeps its
      place and its entries and may gain some or change hands, and what is new is directories. */
  ghost predicate Tends(t: Tree, t': Tree) {
    && (forall n :: n in t ==> n in t' && if t[n].Dir? then KeepsDir(t[n], t'[n]) else t'[n] == t[n])
    && (forall n :: n in t' && n !in t ==> t'[n].Dir?)
  }

  predicate KeepsDir(d: Inode, d': Inode)
    requires d.Dir?
  {
    d'.Dir? && d'.parent == d.parent && Keeps(d.entries, d'.entries)
  }

  lemma TendsSelf(t: Tree)
    ensures Tends(t, t)
  {
  }

  lemma TendsMore(t: Tree, t': Tree, t'': Tree)
    requires Tends(t, t') && Tends(t', t'')
    ensures Tends(t, t'')
  {
  }

  lemma WithDirTends(t: Tree, d: Ino, name: string, n: Ino, owner: Owner)
    requires IsDir(t, d) && n !in t && name !in t[d].entries
    ensures Tends(t, WithDir(t, d, name, n, owner))
  {
  }

  lemma WithOwnerTends(t: Tree, n: Ino, owner: Owner)
    requires IsDir(t, n)
    ensures Tends(t, WithOwner(t, n, owner))
  {
  }

  lemma ChownedIsMade(t: Tree, d: Ino, name: string, n: Ino, owner: Owner)
    requires n !in t && IsDir(t, d)
    ensures WithOwner(WithDir(t, d, name, n, Owner(0, 0)), n, owner) == WithDir(t, d, name, n, owner)
  {
  }

  /** Hand the directory held as `next` to `owner` and let go of the one above it. */
  method Adopt(k: Host, cur: Fd, next: Fd, owner: Owner) returns (r: Sys<()>)
    requires k.Valid() && cur in k.open && next in k.open && cur != next
    modifies k
    ensures k.Valid() && Evolved(old(k.fs), old(k.zones), k.fs, k.zones)
    ensures k.open == if r.Ok? then old(k.open) - {cur} else old(k.open) - {cur} - {next}
    ensures k.reliable ==> r.Ok?
    ensures k.quiet && r.Err? ==> k.Still()
    ensures k.quiet && r.Ok? ==> k.fs == WithOwner(old(k.fs), old(k.open)[next], owner) && k.zones == old(k.zones)
  {
    hide Linked, TreeShaped, Zoned, Evolved;
    r := k.Fchown(next, owner);
    if r.Err? {
      k.Close(next);
    }
    k.Close(cur);
  }

  /** One component of the tail: make it, open what is there now without following it,
      hand it to `owner`, and let go of the directory it is in. */
  method MakeOne(k: Host, cur: Fd, name: string, owner: Owner) returns (r: Sys<Fd>)
    requires k.Valid() && cur in k.open
    modifies k
    ensures k.Valid() && Evolved(old(k.fs), old(k.zones), k.fs, k.zones)
    ensures Opens(old(k.open) - {cur}, k.open, r)
    ensures r.Ok? ==> IsDir(k.fs, k.open[r.value]) && NoEscape(k.fs, k.zones, old(k.open)[cur], k.open[r.value])
    ensures k.quiet && r.Ok? && Lacks(old(k.fs), old(k.open)[cur], name) ==>
              Adds(old(k.fs), old(k.zones), k.fs, k.zones, old(k.open)[cur], name, k.open[r.value], owner)
    ensures k.quiet && r.Err? && !k.Still() ==>
              exists n :: Adds(old(k.fs), old(k.zones), k.fs, k.zones, old(k.open)[cur], name, n, Owner(0, 0))
    ensures k.quiet ==> Tends(old(k.fs), k.fs)
    ensures k.quiet && r.Ok? ==> k.fs[k.open[r.value]].owner == owner
    ensures k.quiet && r.Ok? ==> IsDir(old(k.fs), old(k.open)[cur])
    ensures k.quiet && Blocked(old(k.fs), old(k.open)[cur], name) ==> r.Err?
    ensures k.quiet && k.reliable && Lacks(old(k.fs), old(k.open)[cur], name) ==> r.Ok?
  {
    hide Linked, TreeShaped, Zoned, Evolved, Sealed, NoEscape, Tends;
    TendsSelf(k.fs);
    var made := k.Mkdirat(cur, name);
    if made.Ok? && k.quiet {
      WithDirTends(old(k.fs), k.open[cur], name, made.value, Owner(0, 0));
    }
    if made.Err? && made.errno != EEXIST {
      k.Close(cur);
      return Err(made.errno);
    }
    ghost var d, fs1, zones1 := k.open[cur], k.fs, k.zones;
    var next := k.Openat(cur, name, true);
    ghost var fs2, zones2 := k.fs, k.zones;
    EvolvedTrans(old(k.fs), old(k.zones), fs1, zones1, fs2, zones2);
    if made.Ok? && k.quiet {
      assert Adds(old(k.fs), old(k.zones), fs1, zones1, d, name, made.value, Owner(0, 0));
    }
    if next.Err? {
      k.Close(cur);
      return next;
    }
    ghost var n := k.open[next.value];
    EntryNoEscape(fs2, zones2, d, name);
    if k.quiet {
      WithOwnerTends(fs2, n, owner);
      TendsMore(old(k.fs), fs2, WithOwner(fs2, n, owner));
    }
    var owned := Adopt(k, cur, next.value, owner);
    EvolvedTrans(old(k.fs), old(k.zones), fs2, zones2, k.fs, k.zones);
    NoEscapeEvolves(fs2, zones2, k.fs, k.zones, d, n);
    EvolvedDir(fs2, zones2, k.fs, k.zones, n);
    if owned.Err? {
      assert k.open == old(k.open) - {cur};
      return Err(owned.errno);
    }
    if k.quiet && Lacks(old(k.fs), d, name) {
      assert fs1[d].entries[name] == made.value == n;
      ChownedIsMade(old(k.fs), d, name, n, owner);
    }
    r := next;
  }

  /** Make `missing` under the directory held as `parentFd`, which is given up either way. */
  method CreateUnder(k: Host, parentFd: Fd, missing: seq<string>) returns (r: Sys<Fd>, ghost inos: seq<Ino>)
    requires k.Valid() && parentFd in k.open
    modifies k
    ensures k.Valid() && Evolved(old(k.fs), old(k.zones), k.fs, k.zones)
    ensures Opens(old(k.open) - {parentFd}, k.open, r)
    ensures r.Ok? ==> NoEscape(k.fs, k.zones, old(k.open)[parentFd], k.open[r.value])
    ensures r.Ok? ==> k.open[r.value] == old(k.open)[parentFd] || IsDir(k.fs, k.open[r.value])
    ensures k.quiet ==> Tends(old(k.fs), k.fs)
    ensures k.quiet && |missing| > 0 && r.Ok? ==> IsDir(old(k.fs), old(k.open)[parentFd])
    ensures k.quiet && |missing| > 0 && r.Ok? ==> k.fs[k.open[r.value]].owner == old(k.fs)[old(k.open)[parentFd]].owner
    ensures k.quiet && |missing| > 0 && Blocked(old(k.fs), old(k.open)[parentFd], missing[0]) ==> r.Err? && k.Still()
    ensures k.quiet && |missing| > 0 && Lacks(old(k.fs), old(k.open)[parentFd], missing[0]) ==>
              var d := old(k.open)[parentFd];
              && (k.reliable ==> r.Ok?)
              && OnlyAdds(old(k.fs), old(k.zones), k.fs, k.zones, d)
              && (r.Ok? ==> TailMade(old(k.fs), k.fs, d, missing, inos, old(k.fs)[d].owner)
                            && k.open[r.value] == TailEnd(d, inos))
  {
    hide Linked, TreeShaped, Zoned, Evolved, NoEscape, OnlyAdds, TailMade, Tends;
    TendsSelf(k.fs);
    inos := [];
    ghost var d := k.open[parentFd];
    var st := k.Fstat(parentFd);
    ghost var owner := old(k.fs)[d].owner;
    ghost var clean := k.quiet && |missing| > 0 && Lacks(k.fs, d, missing[0]);
    if clean {
      AddsNone(k.fs, k.zones, d);
      TailNone(k.fs, d, owner);
    }
    if st.Err? {
      k.Close(parentFd);
      return Err(st.errno), inos;
    }
    EntryNoEscapeSelf(k.fs, k.zones, d);
    var cur := parentFd;
    for i := 0 to |missing|
      invariant k.Valid() && Evolved(old(k.fs), old(k.zones), k.fs, k.zones)
      invariant cur in k.open && k.open - {cur} == old(k.open) - {parentFd}
      invariant cur == parentFd || cur !in old(k.open) - {parentFd}
      invariant NoEscape(k.fs, k.zones, d, k.open[cur]) && (k.open[cur] == d || IsDir(k.fs, k.open[cur]))
      invariant k.quiet ==> Tends(old(k.fs), k.fs) && (i > 0 ==> k.fs[k.open[cur]].owner == owner)
      invariant k.quiet && i > 0 ==> IsDir(old(k.fs), d) && !Blocked(old(k.fs), d, missing[0])
      invariant i == 0 ==> k.open[cur] == d && (k.quiet ==> k.fs == old(k.fs) && k.zones == old(k.zones))
      invariant clean ==> |inos| == i && TailMade(old(k.fs), k.fs, d, missing[..i], inos, owner)
      invariant clean ==> k.open[cur] == TailEnd(d, inos)
      invariant clean ==> OnlyAdds(old(k.fs), old(k.zones), k.fs, k.zones, d)
    {
      ghost var fs0, zones0, at := k.fs, k.zones, k.open[cur];
      if clean {
        TailLacks(old(k.fs), k.fs, d, missing, inos, owner, i);
      }
      var next := MakeOne(k, cur, missing[i], st.value.owner);
      EvolvedTrans(old(k.fs), old(k.zones), fs0, zones0, k.fs, k.zones);
      if k.quiet {
        TendsMore(old(k.fs), fs0, k.fs);
      }
      if next.Err? {
        if clean && !(k.fs == fs0 && k.zones == zones0) {
          ghost var n :| Adds(fs0, zones0, k.fs, k.zones, at, missing[i], n, Owner(0, 0));
          AddsMore(old(k.fs), old(k.zones), fs0, zones0, k.fs, k.zones, d, at, missing[i], n, Owner(0, 0));
        }
        return next, inos;
      }
      NoEscapeEvolves(fs0, zones0, k.fs, k.zones, d, at);
      EvolvedDir(fs0, zones0, k.fs, k.zones, at);
      NoEscapeTrans(k.fs, k.zones, d, at, k.open[next.value]);
      if clean {
        ghost var n := k.open[next.value];
        AddsMore(old(k.fs), old(k.zones), fs0, zones0, k.fs, k.zones, d, at, missing[i], n, owner);
        TailGrows(old(k.fs), fs0, d, missing[..i], inos, owner, missing[i], n);
        inos := inos + [n];
        assert missing[..i + 1] == missing[..i] + [missing[i]];
      }
      cur := next.value;
    }
    assert missing[..|missing|] == missing;
    r := Ok(cur);
  }

  lemma AddsNone(t: Tree, z: Zones, d: Ino)
    requires IsDir(t, d)
    ensures OnlyAdds(t, z, t, z, d)
  {
  }

  lemma AddsMore(t: Tree, z: Zones, t': Tree, z': Zones, t'': Tree, z'': Zones, d: Ino, at: Ino, name: string,
      n: Ino, owner: Owner)
    requires OnlyAdds(t, z, t', z', d) && Evolved(t, z, t', z') && (at == d || at !in t)
    requires Adds(t', z', t'', z'', at, name, n, owner)
    ensures OnlyAdds(t, z, t'', z'', d)
  {
    AddsOne(t, z, t', z', d, at, name, n, owner);
  }

  lemma EntryNoEscapeSelf(t: Tree, z: Zones, d: Ino)
    requires d in t
    ensures NoEscape(t, z, d, d)
  {
  }

  /** The next name of the tail is free where it goes. */
  lemma TailLacks(t: Tree, t': Tree, d: Ino, missing: seq<string>, inos: seq<Ino>, owner: Owner, i: nat)
    requires i < |missing| && |inos| == i && TailMade(t, t', d, missing[..i], inos, owner)
    requires Lacks(t, d, missing[0])
    ensures Lacks(t', TailEnd(d, inos), missing[i]) && (TailEnd(d, inos) == d || TailEnd(d, inos) !in t)
  {
    if i > 0 {
      assert TailAt(t', d, missing[..i], inos, owner, i - 1);
    }
  }

  /** resolveBeneath: openat2 where it can be had, the walk where not. */
  method ResolveBeneath(k: Host, rootFd: Fd, comps: seq<string>) returns (r: Sys<Fd>)
    requires k.Valid() && rootFd in k.open && k.open[rootFd] in k.zones && IsDir(k.fs, k.open[rootFd])
    modifies k
    ensures k.Valid() && k.Moved()
    ensures Opens(old(k.open), k.open, r)
    ensures r.Ok? ==> k.open[r.value] in k.zones[old(k.open)[rootFd]]
    ensures r.Ok? && k.quiet ==>
              var o := WalkResolve(k.fs, old(k.open)[rootFd], comps);
              o.Done? && k.open[r.value] == o.pos.Here()
    ensures r.Err? && k.quiet && !k.Injected(r.errno) ==>
              && (WalkResolve(k.fs, old(k.open)[rootFd], comps) == Fail(r.errno)
                  || KernelResolve(k.fs, old(k.open)[rootFd], comps) == Fail(r.errno))
              && (r.errno == ENOENT ==> WalkResolve(k.fs, old(k.open)[rootFd], comps) == Fail(ENOENT))
  {
    hide Linked, TreeShaped, Zoned, Evolved, Resolve;
    ghost var root := k.open[rootFd];
    k.ValidFacts();
    if |comps| == 0 {
      r := k.Dup(rootFd);
      RootStays(old(k.fs), old(k.zones), k.fs, k.zones, root);
      return;
    }
    var openat2Works: bool := *;
    if openat2Works {
      r := k.Openat2(rootFd, comps);
      k.ValidFacts();
      if k.quiet {
        WalkMatchesKernel(k.fs, root, comps);
      }
    } else {
      r := ResolveBeneathWalk(k, rootFd, comps);
    }
  }

  lemma RootStays(t: Tree, z: Zones, t': Tree, z': Zones, root: Ino)
    requires Evolved(t, z, t', z') && Zoned(t', z') && Linked(t') && root in z && IsDir(t, root)
    ensures root in z' && root in z'[root] && IsDir(t', root)
    ensures WalkResolve(t', root, []) == Done(In(root), MAX_LINKS)
  {
    assert SameKind(t[root], t'[root]);
  }

  /** Where the deepest prefix that resolves stops, the next name is free or blocked. */
  lemma DeepestPrefix(t: Tree, root: Ino, comps: seq<string>, i: nat)
    requires Linked(t) && IsDir(t, root) && i < |comps| && PlainName(comps[i])
    requires WalkResolve(t, root, comps[..i]).Done? && WalkResolve(t, root, comps[..i + 1]) == Fail(ENOENT)
    ensures var pos := WalkResolve(t, root, comps[..i]).pos;
            pos.In? && (Lacks(t, pos.dir, comps[i]) || Blocked(t, pos.dir, comps[i]))
  {
    var o := WalkResolve(t, root, comps[..i]);
    assert comps[..i + 1] == comps[..i] + [comps[i]];
    ResolveAppend(t, root, false, In(root), comps[..i], [comps[i]], MAX_LINKS);
    assert Resolve(t, root, false, o.pos, [comps[i]], o.links) == Fail(ENOENT);
    var m := Step(t, root, false, o.pos, comps[i], o.links);
    assert m.Go? ==> m.splice + [comps[i]][1..] == m.splice;
  }

  /** What auto-creation promises for a missing path: the deepest prefix that resolves was
      found at length `i`, exactly the rest was made below it with its owner, and the whole
      path now resolves to `node`, for the walk and, if it resolved the prefix, for openat2. */
  ghost predicate Created(t: Tree, t': Tree, root: Ino, comps: seq<string>, i: nat, inos: seq<Ino>, node: Ino) {
    && Linked(t) && Linked(t') && IsDir(t, root) && IsDir(t', root) && i < |comps|
    && (forall j :: i < j <= |comps| ==> WalkResolve(t, root, comps[..j]) == Fail(ENOENT))
    && var o := WalkResolve(t, root, comps[..i]);
    && o.Done? && o.pos.In?
    && TailMade(t, t', o.pos.dir, comps[i..], inos, t[o.pos.dir].owner) && node == TailEnd(o.pos.dir, inos)
    && WalkResolve(t', root, comps) == Done(In(node), o.links)
    && (KernelResolve(t, root, comps[..i]) == o ==> KernelResolve(t', root, comps) == Done(In(node), o.links))
  }

  lemma CreatedHolds(t: Tree, t': Tree, root: Ino, comps: seq<string>, i: nat, d: Ino, inos: seq<Ino>)
    requires Linked(t) && Linked(t') && IsDir(t, root) && i < |comps|
    requires forall c :: c in comps ==> PlainName(c)
    requires forall j :: i < j <= |comps| ==> WalkResolve(t, root, comps[..j]) == Fail(ENOENT)
    requires WalkResolve(t, root, comps[..i]).Done? && WalkResolve(t, root, comps[..i]).pos == In(d)
    requires TailMade(t, t', d, comps[i..], inos, t[d].owner)
    ensures Created(t, t', root, comps, i, inos, TailEnd(d, inos))
  {
    hide TailMade, Linked, Resolve;
    var o := WalkResolve(t, root, comps[..i]);
    PathResolves(t, t', root, false, comps, i, d, inos, t[d].owner, o.links);
    if KernelResolve(t, root, comps[..i]) == o {
      PathResolves(t, t', root, true, comps, i, d, inos, t[d].owner, o.links);
    }
  }

  /** The condition for creation to succeed: the name to make first is free, not taken by
      something a directory cannot be opened through, such as a dangling symlink. */
  ghost predicate Creatable(t: Tree, root: Ino, comps: seq<string>)
    requires Linked(t) && IsDir(t, root)
  {
    exists i :: 0 <= i < |comps| && FreeAt(t, root, comps, i)
  }

  ghost predicate FreeAt(t: Tree, root: Ino, comps: seq<string>, i: nat)
    requires Linked(t) && IsDir(t, root) && i < |comps|
  {
    var o := WalkResolve(t, root, comps[..i]);
    o.Done? && o.pos.In? && Lacks(t, o.pos.dir, comps[i])
  }

  /** A free name ends every longer prefix, so only the deepest one that resolves can have it. */
  lemma FreeIsDeepest(t: Tree, root: Ino, comps: seq<string>, i: nat, j: nat)
    requires Linked(t) && IsDir(t, root) && i < |comps| && FreeAt(t, root, comps, i) && PlainName(comps[i])
    requires i < j <= |comps|
    ensures WalkResolve(t, root, comps[..j]) == Fail(ENOENT)
  {
    var o := WalkResolve(t, root, comps[..i]);
    assert comps[..j] == comps[..i] + comps[i..j];
    ResolveAppend(t, root, false, In(root), comps[..i], comps[i..j], MAX_LINKS);
    assert comps[i..j][0] == comps[i];
  }

  lemma FreeOnlyHere(t: Tree, root: Ino, comps: seq<string>, i: nat)
    requires Linked(t) && IsDir(t, root) && i < |comps| && forall c :: c in comps ==> PlainName(c)
    requires WalkResolve(t, root, comps[..i]).Done? && WalkResolve(t, root, comps[..i]).pos.In?
    requires forall j :: i < j <= |comps| ==> WalkResolve(t, root, comps[..j]) == Fail(ENOENT)
    ensures Creatable(t, root, comps) <==> Lacks(t, WalkResolve(t, root, comps[..i]).pos.dir, comps[i])
  {
    if Creatable(t, root, comps) {
      var j :| 0 <= j < |comps| && FreeAt(t, root, comps, j);
      if j < i {
        FreeIsDeepest(t, root, comps, j, i);
      }
    }
    if Lacks(t, WalkResolve(t, root, comps[..i]).pos.dir, comps[i]) {
      assert FreeAt(t, root, comps, i);
    }
  }

  /** A dangling symlink is such a thing: openat2 finds nothing through it, and nothing can be
      created under its name. */
  lemma DanglingBlocks(t: Tree, root: Ino, l: string, m: string)
    requires Linked(t) && IsDir(t, root) && PlainName(l) && PlainName(m) && m !in t[root].entries
    requires l in t[root].entries && t[t[root].entries[l]].Symlink? && t[t[root].entries[l]].target == m
    ensures KernelResolve(t, root, [l]) == Fail(ENOENT) && !Creatable(t, root, [l])
  {
    var links := MAX_LINKS - 1;
    SplitPiece(m, '/');
    assert !IsAbs(m) by { assert m[0] in m; }
    assert Step(t, root, true, In(root), l, MAX_LINKS) == Go(In(root), [m], links);
    assert [m] + [l][1..] == [m];
    assert Step(t, root, true, In(root), m, links) == Stop(ENOENT);
    assert Resolve(t, root, true, In(root), [m], links) == Fail(ENOENT);
    assert Resolve(t, root, true, In(root), [l], MAX_LINKS) == Resolve(t, root, true, In(root), [m], links);
    assert [l][..0] == [];
    EmptyResolves(t, root);
    assert !FreeAt(t, root, [l], 0);
  }

  /** Where openat2 finds a name missing, both resolvers answer every prefix alike. */
  lemma MissingPrefix(t: Tree, root: Ino, comps: seq<string>, i: nat)
    requires Linked(t) && IsDir(t, root) && i <= |comps| && KernelResolve(t, root, comps) == Fail(ENOENT)
    ensures var o := KernelResolve(t, root, comps[..i]);
            (o.Done? || o == Fail(ENOENT)) && WalkResolve(t, root, comps[..i]) == o
  {
    assert comps == comps[..i] + comps[i..];
    ResolveAppend(t, root, true, In(root), comps[..i], comps[i..], MAX_LINKS);
    WalkMatchesKernel(t, root, comps[..i]);
  }

  ghost predicate AddsInside(t: Tree, z: Zones, t': Tree, z': Zones, root: Ino) {
    root in z && exists d :: d in z[root] && OnlyAdds(t, z, t', z', d)
  }

  lemma ReachesInside(t: Tree, z: Zones, t': Tree, z': Zones, root: Ino, d: Ino, n: Ino)
    requires Evolved(t, z, t', z') && root in z && d in z[root]
    requires NoEscape(t', z', d, n) && (n == d || IsDir(t', n))
    ensures root in z' && n in z'[root]
  {
  }

  /** createBeneath: find the deepest prefix that resolves and make the rest below it. */
  method CreateBeneath(k: Host, rootFd: Fd, comps: seq<string>)
      returns (r: Sys<Fd>, ghost at: nat, ghost inos: seq<Ino>)
    requires k.Valid() && rootFd in k.open && k.open[rootFd] in k.zones && IsDir(k.fs, k.open[rootFd])
    requires forall c :: c in comps ==> PlainName(c)
    modifies k
    ensures k.Valid() && Evolved(old(k.fs), old(k.zones), k.fs, k.zones)
    ensures Opens(old(k.open), k.open, r)
    ensures r.Ok? ==> k.open[r.value] in k.zones[old(k.open)[rootFd]]
    ensures k.quiet && WalkResolve(old(k.fs), old(k.open)[rootFd], comps) == Fail(ENOENT) ==>
              && (r.Ok? ==> Created(old(k.fs), k.fs, old(k.open)[rootFd], comps, at, inos, k.open[r.value]))
              && (k.Still() || AddsInside(old(k.fs), old(k.zones), k.fs, k.zones, old(k.open)[rootFd]))
    ensures k.quiet && k.reliable && KernelResolve(old(k.fs), old(k.open)[rootFd], comps) == Fail(ENOENT) ==>
              (r.Ok? <==> Creatable(old(k.fs), old(k.open)[rootFd], comps))
  {
    hide Linked, TreeShaped, Zoned, Evolved, NoEscape, OnlyAdds, TailMade, Created, Resolve, WalkResolve,
      KernelResolve, Lacks, Blocked, Creatable, PlainName, Host.Valid;
    at, inos := 0, [];
    ghost var root := k.open[rootFd];
    k.ValidFacts();
    ghost var missing := k.quiet && WalkResolve(k.fs, root, comps) == Fail(ENOENT);
    ghost var plain := k.quiet && k.reliable && KernelResolve(k.fs, root, comps) == Fail(ENOENT);
    assert comps[..|comps|] == comps;
    EvolvedRefl(k.fs, k.zones);
    if plain {
      MissingPrefix(k.fs, root, comps, |comps|);
    }
    for i := |comps| downto 0
      invariant k.Valid() && k.open == old(k.open) && k.Moved()
      invariant root in k.zones && IsDir(k.fs, root)
      invariant missing ==> forall j :: i <= j <= |comps| ==> WalkResolve(k.fs, root, comps[..j]) == Fail(ENOENT)
    {
      ghost var fs0, zones0 := k.fs, k.zones;
      var parent := ResolveBeneath(k, rootFd, comps[..i]);
      EvolvedTrans(old(k.fs), old(k.zones), fs0, zones0, k.fs, k.zones);
      EvolvedDir(fs0, zones0, k.fs, k.zones, root);
      k.ValidFacts();
      if plain {
        MissingPrefix(k.fs, root, comps, i);
      }
      if parent.Err? {
        if parent.errno == ENOENT { continue; }
        return Err(parent.errno), at, inos;
      }
      ghost var d, fs1, zones1 := k.open[parent.value], k.fs, k.zones;
      at := i;
      if missing {
        DeepestPrefix(k.fs, root, comps, i);
      }
      if plain {
        FreeOnlyHere(k.fs, root, comps, i);
      }
      r, inos := CreateUnder(k, parent.value, comps[i..]);
      EvolvedTrans(old(k.fs), old(k.zones), fs1, zones1, k.fs, k.zones);
      if r.Ok? {
        ReachesInside(fs1, zones1, k.fs, k.zones, root, d, k.open[r.value]);
      }
      if missing && r.Ok? {
        k.ValidFacts();
        CreatedHolds(fs1, k.fs, root, comps, i, d, inos);
      }
      return;
    }
    k.ValidFacts();
    EmptyResolves(k.fs, root);
    assert comps[..0] == [];
    r := Err(EOTHER);
  }

  lemma EmptyResolves(t: Tree, root: Ino)
    requires Linked(t) && IsDir(t, root)
    ensures WalkResolve(t, root, []) == Done(In(root), MAX_LINKS)
  {
  }
}
