/** Translation of a sibling container's bind source (pkg/dind/bindtranslate.go). */
module BindTranslate {
  import opened Text
  import opened Sorting
  import opened FileTree
  import opened Kernel
  import opened BindCreate
  import opened BindPin

  /** `src` is the bind point `key` or lies below it. */
  predicate Matches(src: string, key: string) {
    src == key || HasPrefix(src, key + "/")
  }

  /** Below the bind point means after a slash. */
  lemma MatchesIs(src: string, key: string)
    ensures Matches(src, key) <==> src == key || exists rest: string :: src == key + ['/'] + rest
  {
    if HasPrefix(src, key + "/") {
      assert src == key + ['/'] + src[|key| + 1..];
    }
  }

  /** What is left of `src` below the bind point. */
  function Leftover(src: string, key: string): string
    requires Matches(src, key)
  {
    if src == key then "" else src[|key| + 1..]
  }

  datatype Match = Match(host: string, suffix: string)

  /** The right answer: the host source of the longest matching key and the rest of `src`
      below it, or nothing if no key matches. */
  ghost predicate IsMatch(src: string, binds: map<string, string>, m: Option<Match>) {
    match m
    case None => forall k :: k in binds ==> !Matches(src, k)
    case Some(Match(host, suffix)) =>
      exists k :: k in binds && Longest(src, binds, k) && host == binds[k]
                  && suffix == Leftover(src, k) && (src == k || src == k + "/" + suffix)
  }

  ghost predicate Longest(src: string, binds: map<string, string>, key: string) {
    Matches(src, key) && forall k :: k in binds && Matches(src, k) && k != key ==> |k| < |key|
  }

  /** Two keys of one length cannot both match. */
  lemma SameLengthKeys(src: string, k: string, k': string)
    requires Matches(src, k) && Matches(src, k') && |k| == |k'|
    ensures k == k'
  {
    assert k == src[..|k|] by {
      if src != k { assert (k + "/")[..|k|] == k; }
    }
    assert k' == src[..|k'|] by {
      if src != k' { assert (k' + "/")[..|k'|] == k'; }
    }
  }

  /** The answer does not depend on the order keys are visited or ties sorted in. */
  lemma MatchUnique(src: string, binds: map<string, string>, m: Option<Match>, m': Option<Match>)
    requires IsMatch(src, binds, m) && IsMatch(src, binds, m')
    ensures m == m'
  {
    if m.Some? && m'.Some? {
      var k :| k in binds && Longest(src, binds, k) && m.value.host == binds[k] && m.value.suffix == Leftover(src, k);
      var k' :| k' in binds && Longest(src, binds, k') && m'.value.host == binds[k']
        && m'.value.suffix == Leftover(src, k');
      assert k == k';
    }
  }

  /** matchBindPrefix: collect the keys in any order, sort them longest first, take the first. */
  method MatchBindPrefix(src: string, binds: map<string, string>) returns (m: Option<Match>)
    ensures IsMatch(src, binds, m)
  {
    var keys: seq<string> := [];
    var rest := binds.Keys;
    while rest != {}
      invariant rest <= binds.Keys
      invariant forall k :: k in binds <==> k in rest || k in keys
      decreases rest
    {
      var k :| k in rest;
      keys, rest := keys + [k], rest - {k};
    }
    var sorted := SortLongestFirst(keys);
    SameMembers(keys, sorted);
    for i := 0 to |sorted|
      invariant forall j :: 0 <= j < i ==> !Matches(src, sorted[j])
    {
      var k := sorted[i];
      if src == k || HasPrefix(src, k + "/") {
        forall k' | k' in binds && Matches(src, k') && k' != k
          ensures |k'| < |k|
        {
          var j :| 0 <= j < |sorted| && sorted[j] == k';
          if |k'| == |k| { SameLengthKeys(src, k, k'); }
        }
        if src == k { return Some(Match(binds[k], "")); }
        assert src == k + "/" + src[|k| + 1..];
        return Some(Match(binds[k], src[|k| + 1..]));
      }
    }
    m := None;
  }

  datatype Resolution = PassThrough(host: string) | Pinned(pin: Pin, readOnly: bool)

  /** The conservation law of a translation: a pass-through or an error opens nothing, a
      pinned result exactly the descriptor its pin owns. */
  twostate predicate Translated(k: Host, new r: Sys<Resolution>)
    reads k, if r.Ok? && r.value.Pinned? then {r.value.pin} else {}
  {
    if r.Ok? && r.value.Pinned? then PinOpens(k, Ok(r.value.pin)) else k.open == old(k.open)
  }

  /** The pin is inside the root it was resolved beneath and, with nobody else about, right. */
  twostate predicate Beneath(k: Host, new pin: Pin, root: string, rel: string, autoCreate: bool)
    reads k, pin
  {
    && root in k.roots && pin.fd in k.open && k.roots[root] in k.zones
    && k.open[pin.fd] in k.zones[k.roots[root]]
    && (k.quiet ==>
          && Linked(old(k.fs)) && k.roots[root] in old(k.fs)
          && (RootedComponents(rel) != [] ==> IsDir(old(k.fs), k.roots[root]))
          && PinnedRight(old(k.fs), k.fs, k.roots[root], RootedComponents(rel), autoCreate, k.open[pin.fd]))
  }

  /** A directory or a regular file. */
  predicate Plain(node: Inode) {
    node.Dir? || (node.Leaf? && node.regular)
  }

  /** Beneath `root` the path leads openat2 to a directory or a regular file, or to nothing, and
      a directory can be made there. */
  ghost predicate Bindable(t: Tree, root: Ino, comps: seq<string>)
    requires Linked(t) && IsDir(t, root)
  {
    var o := KernelResolve(t, root, comps);
    if o.Done? then Plain(t[o.pos.Here()]) else o == Fail(ENOENT) && Creatable(t, root, comps)
  }

  /** With nobody else about and no faults, beneath a bind root that is there, it is settled
      whether `rel` can be bound; only where openat2 reports ENOTDIR the walk may differ. */
  ghost predicate Settled(k: Host, t: Tree, root: string, rel: string) {
    && k.quiet && k.reliable && root in k.roots && Linked(t) && IsDir(t, k.roots[root])
    && KernelResolve(t, k.roots[root], RootedComponents(rel)) != Fail(ENOTDIR)
  }

  /** And it can. */
  ghost predicate Eligible(k: Host, t: Tree, root: string, rel: string) {
    Settled(k, t, root, rel) && Bindable(t, k.roots[root], RootedComponents(rel))
  }

  lemma BindablePin(t: Tree, t': Tree, root: Ino, comps: seq<string>, node: Ino)
    requires Linked(t) && IsDir(t, root) && KernelResolve(t, root, comps) != Fail(ENOTDIR)
    requires PinnedRight(t, t', root, comps, true, node)
    requires KernelResolve(t, root, comps) == Fail(ENOENT) ==> Creatable(t, root, comps)
    ensures node in t' && (Plain(t'[node]) <==> Bindable(t, root, comps))
  {
    hide Creatable, TailMade;
    WalkMatchesKernel(t, root, comps);
    if comps == [] {
      EmptyResolves(t, root);
    }
  }

  /** Pin, and refuse what is neither a directory nor a regular file, closing the pin. */
  method PinBindable(k: Host, root: string, rel: string) returns (r: Sys<Resolution>)
    requires k.Valid()
    modifies k
    ensures k.Valid() && Evolved(old(k.fs), old(k.zones), k.fs, k.zones)
    ensures Translated(k, r)
    ensures r.Ok? ==> r.value.Pinned? && !r.value.readOnly && r.value.pin.mode != Irregular
    ensures r.Ok? ==> Beneath(k, r.value.pin, root, rel, true)
    ensures Settled(k, old(k.fs), root, rel) ==> (r.Ok? <==> Eligible(k, old(k.fs), root, rel))
  {
    hide Evolved, PinnedRight, Zoned, TreeShaped, KernelResolve, Creatable, AddsInside, Plain;
    k.ValidFacts();
    var pinned := PinBindSource(k, root, rel, true);
    if pinned.Err? { return Err(pinned.errno); }
    var pin := pinned.value;
    if Settled(k, old(k.fs), root, rel) {
      BindablePin(old(k.fs), k.fs, k.roots[root], RootedComponents(rel), k.open[pin.fd]);
    }
    PlainShows(pin.mode, k.fs[k.open[pin.fd]]);
    if pin.mode == Irregular {
      pin.Close(k);
      assert k.open == old(k.open);
      return Err(EOTHER);
    }
    assert k.roots[root] in old(k.zones);
    ZoneHasRoot(old(k.fs), old(k.zones), k.roots[root]);
    r := Ok(Pinned(pin, false));
  }

  lemma PlainShows(mode: Mode, node: Inode)
    requires Shows(mode, node)
    ensures Plain(node) <==> mode != Irregular
  {
  }

  /** A layer in which openat2 finds the path. */
  ghost predicate Has(k: Host, t: Tree, layer: string, rel: string) {
    && layer != "" && k.quiet && k.reliable && layer in k.roots
    && Linked(t) && IsDir(t, k.roots[layer]) && KernelResolve(t, k.roots[layer], RootedComponents(rel)).Done?
  }

  /** The pin comes from `lowerdirs[i]` or a layer above it. */
  twostate predicate FromLayer(k: Host, new pin: Pin, lowerdirs: seq<string>, rel: string, i: nat)
    requires i < |lowerdirs|
    reads k, pin
  {
    exists j :: 0 <= j <= i && Beneath(k, pin, lowerdirs[j], rel, false)
  }

  /** The layer fallback: writable from the upper layer, read-only from a lower one, always
      from the first that has the path. */
  twostate predicate FromLayers(k: Host, new r: Sys<Resolution>, upperdir: string, lowerdirs: seq<string>, rel: string)
    reads k, if r.Ok? && r.value.Pinned? then {r.value.pin} else {}
  {
    && (r.Ok? ==>
          && r.value.Pinned?
          && (!r.value.readOnly ==> Beneath(k, r.value.pin, upperdir, rel, false))
          && (r.value.readOnly ==> exists lower :: lower in lowerdirs && Beneath(k, r.value.pin, lower, rel, false)))
    && (Has(k, old(k.fs), upperdir, rel) ==> r.Ok? && !r.value.readOnly)
    && (forall i :: 0 <= i < |lowerdirs| && Has(k, old(k.fs), lowerdirs[i], rel) ==>
          r.Ok? && (r.value.readOnly ==> FromLayer(k, r.value.pin, lowerdirs, rel, i)))
  }

  /** translateBindSource: the bind table first, then the runner's rootfs, then its layers. */
  method TranslateBindSource(k: Host, src: string, binds: map<string, string>, rootfs: string,
      upperdir: string, lowerdirs: seq<string>) returns (r: Sys<Resolution>, ghost m: Option<Match>)
    requires k.Valid()
    modifies k
    ensures k.Valid() && Evolved(old(k.fs), old(k.zones), k.fs, k.zones)
    ensures Translated(k, r)
    ensures !HasPrefix(src, "/") ==> r.Err?
    ensures HasPrefix(src, "/") ==> IsMatch(CleanRooted(src), binds, m)
    ensures HasPrefix(src, "/") && m.Some? && m.value.suffix == "" ==> r.Ok?
    ensures HasPrefix(src, "/") && m.Some? && m.value.suffix != "" ==>
              (Settled(k, old(k.fs), m.value.host, m.value.suffix) ==>
                 (r.Ok? <==> Eligible(k, old(k.fs), m.value.host, m.value.suffix)))
    ensures HasPrefix(src, "/") && m.None? && rootfs != "" && Settled(k, old(k.fs), rootfs, CleanRooted(src)) ==>
              (r.Ok? <==> Eligible(k, old(k.fs), rootfs, CleanRooted(src)))
    ensures r.Ok? && m.Some? && m.value.suffix == "" ==> r.value == PassThrough(m.value.host)
    ensures r.Ok? && m.Some? && m.value.suffix != "" ==>
              r.value.Pinned? && !r.value.readOnly && r.value.pin.mode != Irregular
              && Beneath(k, r.value.pin, m.value.host, m.value.suffix, true)
    ensures r.Ok? && m.None? && rootfs != "" ==>
              r.value.Pinned? && !r.value.readOnly && r.value.pin.mode != Irregular
              && Beneath(k, r.value.pin, rootfs, CleanRooted(src), true)
    ensures HasPrefix(src, "/") && m.None? && rootfs == "" ==> FromLayers(k, r, upperdir, lowerdirs, CleanRooted(src))
  {
    m := None;
    EvolvedRefl(k.fs, k.zones);
    hide Evolved, Linked, Zoned, TreeShaped, PinnedRight, IsMatch, Has, Settled, Bindable, CleanRooted;
    if !HasPrefix(src, "/") { return Err(EOTHER), m; }
    var cleaned := CleanRooted(src);
    var found := MatchBindPrefix(cleaned, binds);
    m := found;
    if found.Some? {
      if found.value.suffix == "" { return Ok(PassThrough(found.value.host)), m; }
      r := PinBindable(k, found.value.host, found.value.suffix);
      return;
    }
    if rootfs != "" {
      r := PinBindable(k, rootfs, cleaned);
      return;
    }
    r := PinFromLayers(k, cleaned, upperdir, lowerdirs);
  }

  method PinFromLayers(k: Host, cleaned: string, upperdir: string, lowerdirs: seq<string>) returns (r: Sys<Resolution>)
    requires k.Valid()
    modifies k
    ensures k.Valid() && Evolved(old(k.fs), old(k.zones), k.fs, k.zones)
    ensures Translated(k, r)
    ensures FromLayers(k, r, upperdir, lowerdirs, cleaned)
  {
    hide Evolved, PinnedRight, Zoned, Linked, KernelResolve, Creatable, AddsInside, TreeShaped;
    EvolvedRefl(k.fs, k.zones);
    if upperdir != "" {
      var pinned := PinBindSource(k, upperdir, cleaned, false);
      if pinned.Ok? {
        k.ValidFacts();
        return Ok(Pinned(pinned.value, false));
      }
    }
    for i := 0 to |lowerdirs|
      invariant k.Valid() && Evolved(old(k.fs), old(k.zones), k.fs, k.zones) && k.open == old(k.open)
      invariant k.quiet ==> k.fs == old(k.fs) && k.zones == old(k.zones)
      invariant forall j :: 0 <= j < i ==> !Has(k, old(k.fs), lowerdirs[j], cleaned)
    {
      if lowerdirs[i] == "" { continue; }
      ghost var fs0, zones0 := k.fs, k.zones;
      var pinned := PinBindSource(k, lowerdirs[i], cleaned, false);
      EvolvedTrans(old(k.fs), old(k.zones), fs0, zones0, k.fs, k.zones);
      if pinned.Ok? {
        assert lowerdirs[i] in lowerdirs && Beneath(k, pinned.value, lowerdirs[i], cleaned, false);
        return Ok(Pinned(pinned.value, true));
      }
    }
    r := Err(EOTHER);
  }
}
