/** Unmounting and removing a staging directory (unmountTreeAndRemove, unmountAndRemove,
    detachMount, mountPointsUnder and sweepStagedBindsForJob of
    pkg/dind/bindstage_linux.go) over a mount table and the files it covers. */
module MountTable {
  import opened Text
  import opened Sorting
  import opened MountPath

  /** What a bind mount shows: the tree behind it is lost if it is deleted through the mount. */
  type Source = nat

  datatype Mount = Mount(line: Line, source: Source)

  function Prefix(dir: string): string {
    (if HasSuffix(dir, "/") then dir[..|dir| - 1] else dir) + "/"
  }

  /** `p` is `dir` or lies below it. */
  predicate Under(dir: string, p: string) {
    p == dir || HasPrefix(p, Prefix(dir))
  }

  /** Below a directory is what follows a slash, whether the directory was given with one or
      without. */
  lemma UnderIs(dir: string, p: string)
    ensures var d := if |dir| > 0 && dir[|dir| - 1] == '/' then dir[..|dir| - 1] else dir;
            Under(dir, p) <==> p == dir || exists q: string :: p == d + ['/'] + q
  {
    var d := if |dir| > 0 && dir[|dir| - 1] == '/' then dir[..|dir| - 1] else dir;
    assert Prefix(dir) == d + ['/'] by {
      assert HasSuffix(dir, "/") <==> |dir| > 0 && dir[|dir| - 1] == '/';
    }
    if HasPrefix(p, Prefix(dir)) {
      assert p == d + ['/'] + p[|d| + 1..];
    }
  }

  lemma BelowIsLonger(dir: string, p: string)
    requires Under(dir, p) && p != dir
    ensures |p| > |dir|
  {
    if HasSuffix(dir, "/") {
      assert dir == dir[..|dir| - 1] + "/";
    }
  }

  predicate ValidTable(ms: seq<Mount>) {
    forall m :: m in ms ==> ValidLine(m.line)
  }

  /** The decoded fifth fields of the lines that lie at or below `dir`, in table order. */
  function Listing(ms: seq<Mount>, dir: string): seq<string>
    requires ValidTable(ms)
  {
    if ms == [] then []
    else
      var init, p := Listing(ms[..|ms| - 1], dir), ParsedPoint(ms[|ms| - 1].line);
      if Under(dir, p) then init + [p] else init
  }

  /** The line of a mount at or below `dir` is recognised as one: the source's path is a
      single field and `dir` can be read, or the second field happens to lie below `dir`. */
  predicate Shown(l: Line, dir: string) {
    var parts := Fields(Escape(l.root));
    if |parts| > 1 then Under(dir, Unescape(parts[1])) else Clean(dir)
  }

  predicate Free(ms: seq<Mount>, dir: string) {
    forall m :: m in ms ==> !Under(dir, m.line.point)
  }

  lemma {:induction false} CleanPrefixKeeps(p: string, s: string)
    requires Clean(p) && p <= s
    ensures p <= CleanPrefix(s)
  {
    if p != [] {
      assert p[0] in p && p[0] == s[0];
      assert p[1..] <= s[1..];
      assert forall c :: c in p[1..] ==> c in p;
      CleanPrefixKeeps(p[1..], s[1..]);
      assert p == [p[0]] + p[1..];
    }
  }

  lemma {:induction false} CleanPrefixStops(p: string, s: string)
    requires !Clean(p) && p <= s
    ensures |CleanPrefix(s)| < |p|
  {
    if !Odd(p[0]) {
      assert p == [p[0]] + p[1..];
      CleanPrefixStops(p[1..], s[1..]);
    }
  }

  /** The line of a mount at or below `dir` is taken for one exactly if it is shown, which
      it is whenever neither the source's path nor `dir` has white space that the kernel
      leaves unescaped. */
  lemma ParsedStaysUnder(l: Line, dir: string)
    requires ValidLine(l) && Under(dir, l.point)
    ensures Under(dir, ParsedPoint(l)) <==> Shown(l, dir)
    ensures Clean(l.root) && Clean(dir) ==> Shown(l, dir)
  {
    ParsedPointIs(l);
    CutStaysUnder(dir, l.point);
  }

  lemma CutStaysUnder(dir: string, p: string)
    requires Under(dir, p)
    ensures Under(dir, CleanPrefix(p)) <==> Clean(dir)
  {
    var prefix := Prefix(dir);
    assert forall c :: c in prefix ==> c in dir || c == '/';
    assert forall c :: c in dir ==> c in prefix || c == '/';
    assert Clean(prefix) <==> Clean(dir);
    if Clean(dir) {
      CleanPrefixKeeps(if p == dir then dir else prefix, p);
    } else {
      CleanPrefixStops(if p == dir then dir else prefix, p);
      if p != dir {
        CleanPrefixStops(prefix, p);
      }
    }
  }

  /** Detaching the mount `g` takes `m`, mounted later at or below its point, with it; and
      as long as `g` is there it is listed. */
  predicate Guards(g: Mount, m: Mount, dir: string) {
    Under(dir, g.line.point) && Shown(g.line, dir) && Under(g.line.point, m.line.point)
  }

  /** Two things that can be said of a table, both of the form "each mount that this is about
      lies on an earlier one": that what shows a source at or below a directory is itself
      shown or lies on something that is, and that what lies below a path lies on something
      mounted at it. */
  datatype Claim = Seen(dir: string, source: Source) | Rooted(path: string)

  predicate Concerns(c: Claim, m: Mount) {
    match c
    case Seen(dir, source) => m.source == source && Under(dir, m.line.point) && !Shown(m.line, dir)
    case Rooted(path) => Under(path, m.line.point) && m.line.point != path
  }

  predicate Carries(c: Claim, g: Mount, m: Mount) {
    match c
    case Seen(dir, _) => Guards(g, m, dir)
    case Rooted(path) => g.line.point == path
  }

  predicate Carried(ms: seq<Mount>, c: Claim) {
    ms == [] ||
    var init, m := ms[..|ms| - 1], ms[|ms| - 1];
    Carried(init, c) && (Concerns(c, m) ==> exists g :: g in init && Carries(c, g, m))
  }

  /** The claim holds of each new mount too. */
  predicate AddsCarried(ms: seq<Mount>, added: seq<Mount>, c: Claim) {
    forall k :: 0 <= k < |added| && Concerns(c, added[k]) ==>
      exists g :: g in ms + added[..k] && Carries(c, g, added[k])
  }

  /** Every mount of `source` at or below `dir` is shown, or lies on an earlier one that is. */
  predicate Guarded(ms: seq<Mount>, dir: string, source: Source) {
    Carried(ms, Seen(dir, source))
  }

  predicate AddsGuarded(ms: seq<Mount>, added: seq<Mount>, dir: string, source: Source) {
    AddsCarried(ms, added, Seen(dir, source))
  }

  lemma CarrierAbove(c: Claim, g: Mount, m: Mount)
    requires Concerns(c, m) && Carries(c, g, m)
    ensures Under(g.line.point, m.line.point)
  {
  }

  lemma {:induction false} CarriedAppend(ms: seq<Mount>, added: seq<Mount>, c: Claim)
    requires Carried(ms, c) && AddsCarried(ms, added, c)
    ensures Carried(ms + added, c)
  {
    hide Concerns, Carries;
    if added == [] {
      assert ms + added == ms;
    } else {
      var init := added[..|added| - 1];
      forall k | 0 <= k < |init|
        ensures init[k] == added[k] && init[..k] == added[..k]
      {
      }
      CarriedAppend(ms, init, c);
      assert (ms + added)[..|ms + added| - 1] == ms + init;
    }
  }

  /** Nothing at or below `dir` is shown there. */
  predicate AllHidden(ms: seq<Mount>, dir: string) {
    forall m :: m in ms && Under(dir, m.line.point) ==> !Shown(m.line, dir)
  }

  /** What an empty listing means: whatever is still mounted at or below `dir` is hidden. */
  lemma {:induction false} EmptyListing(ms: seq<Mount>, dir: string)
    requires ValidTable(ms) && Listing(ms, dir) == []
    ensures AllHidden(ms, dir)
  {
    hide Under, Shown, ParsedPoint;
    if ms != [] {
      var init, m := ms[..|ms| - 1], ms[|ms| - 1];
      assert ms == init + [m] && m in ms;
      assert forall x :: x in init ==> x in ms;
      EmptyListing(init, dir);
      if Under(dir, m.line.point) {
        ParsedStaysUnder(m.line, dir);
      }
    }
  }

  /** A guarded source is not among it. */
  lemma {:induction false} GuardedIsGone(ms: seq<Mount>, dir: string, source: Source)
    requires AllHidden(ms, dir) && Guarded(ms, dir, source)
    ensures forall m :: m in ms && Under(dir, m.line.point) ==> m.source != source
  {
    hide Under, Shown;
    if ms != [] {
      var init, m := ms[..|ms| - 1], ms[|ms| - 1];
      assert ms == init + [m] && m in ms;
      assert forall x :: x in init ==> x in ms;
      GuardedIsGone(init, dir, source);
    }
  }

  /** So if every source is guarded, there is no mount to delete through. */
  lemma EmptyListingIsFree(ms: seq<Mount>, dir: string)
    requires ValidTable(ms) && (forall source :: Guarded(ms, dir, source)) && Listing(ms, dir) == []
    ensures Free(ms, dir)
  {
    hide Under, Guarded, Listing;
    EmptyListing(ms, dir);
    forall m | m in ms
      ensures !Under(dir, m.line.point)
    {
      GuardedIsGone(ms, dir, m.source);
    }
  }

  /** A source is mounted at or below `dir`, and not shown there. */
  ghost predicate HiddenSource(ms: seq<Mount>, dir: string, source: Source) {
    exists m :: m in ms && m.source == source && Under(dir, m.line.point) && !Shown(m.line, dir)
  }

  /** What a removal after an empty listing deletes: hidden sources that nothing guards. */
  lemma WhatIsDeleted(ms: seq<Mount>, dir: string, source: Source)
    requires ValidTable(ms) && Listing(ms, dir) == [] && source in Sources(ms, dir)
    ensures HiddenSource(ms, dir, source) && !Guarded(ms, dir, source)
  {
    hide Under, Guarded, Listing, Shown;
    EmptyListing(ms, dir);
    var m :| m in ms && Under(dir, m.line.point) && m.source == source;
    if Guarded(ms, dir, source) {
      GuardedIsGone(ms, dir, source);
      assert false;
    }
  }

  /** One mount at or below `dir` is listed exactly if it is shown. */
  lemma ListedIffShown(m: Mount, dir: string)
    requires ValidLine(m.line) && Under(dir, m.line.point)
    ensures Listing([m], dir) == [] <==> !Shown(m.line, dir)
  {
    ParsedStaysUnder(m.line, dir);
    assert [m][..0] == [];
  }

  lemma EscapeCharPlain(c: char)
    requires !Space(c) && c != '\\'
    ensures EscapeChar(c) == [c]
  {
  }

  lemma {:induction false} EscapePlain(s: string)
    requires Word(s) || s == []
    requires '\\' !in s
    ensures Escape(s) == s
  {
    hide EscapeChar, Space;
    if s != [] {
      assert s[0] in s;
      EscapeCharPlain(s[0]);
      assert forall c :: c in s[1..] ==> c in s;
      EscapePlain(s[1..]);
    }
  }

  /** For one, the mount of a source whose path has a carriage return, say, inside a name is
      shown under no directory. */
  lemma OddNameIsMissed(l: Line, dir: string, p: string, odd: char, q: string)
    requires ValidLine(l) && IsPath(dir) && l.root == p + [odd] + q && Odd(odd)
    requires Word(p) && '\\' !in p && Word(q) && '\\' !in q && !IsPath(q)
    ensures !Shown(l, dir)
  {
    OddNameParts(p, odd, q);
    UnescapePlain(q);
    NotUnder(dir, q);
  }

  lemma NotUnder(dir: string, q: string)
    requires IsPath(dir) && !IsPath(q)
    ensures !Under(dir, q)
  {
    assert Prefix(dir)[0] == '/';
  }

  lemma OddNameParts(p: string, odd: char, q: string)
    requires Odd(odd) && Word(p) && '\\' !in p && Word(q) && '\\' !in q
    ensures Fields(Escape(p + [odd] + q)) == [p, q]
  {
    EscapePlain(p);
    EscapePlain(q);
    var tail := [odd] + q;
    assert tail[1..] == q && p + tail == p + [odd] + q;
    EscapeAppend(p, tail);
    assert Escape(tail) == tail;
    FieldsWord(p);
    FieldsWord(q);
    FieldsAppend(p, tail);
  }

  /** The lines of mounts at or below `dir` are read for what they are, and no other line is
      taken for one of them. */
  predicate Legible(ms: seq<Mount>, dir: string) {
    forall m :: m in ms ==>
      && ValidLine(m.line)
      && if Under(dir, m.line.point) then ParsedPoint(m.line) == m.line.point else !Under(dir, ParsedPoint(m.line))
  }

  /** So it is where none of the paths has white space that the kernel leaves unescaped. */
  lemma CleanIsLegible(ms: seq<Mount>, dir: string)
    requires ValidTable(ms) && forall m :: m in ms ==> Clean(m.line.root) && Clean(m.line.point)
    ensures Legible(ms, dir)
  {
    forall m | m in ms
      ensures ParsedPoint(m.line) == m.line.point
    {
      ParsedPointIs(m.line);
    }
  }

  function PointsUnder(ms: seq<Mount>, dir: string): seq<string> {
    if ms == [] then []
    else
      var init, p := PointsUnder(ms[..|ms| - 1], dir), ms[|ms| - 1].line.point;
      if Under(dir, p) then init + [p] else init
  }

  lemma {:induction false} LegibleListing(ms: seq<Mount>, dir: string)
    requires ValidTable(ms) && Legible(ms, dir)
    ensures Listing(ms, dir) == PointsUnder(ms, dir)
  {
    hide Under, ParsedPoint;
    if ms != [] {
      var init := ms[..|ms| - 1];
      assert ms == init + [ms[|ms| - 1]];
      assert forall m :: m in init ==> m in ms;
      LegibleListing(init, dir);
    }
  }

  /** How many mounts are stacked at `p`. */
  function Stacked(ms: seq<Mount>, p: string): nat {
    if ms == [] then 0 else Stacked(ms[..|ms| - 1], p) + (if ms[|ms| - 1].line.point == p then 1 else 0)
  }

  lemma {:induction false} StackedListed(ms: seq<Mount>, dir: string, p: string)
    ensures Under(dir, p) ==> Stacked(ms, p) == multiset(PointsUnder(ms, dir))[p]
  {
    if ms != [] {
      StackedListed(ms[..|ms| - 1], dir, p);
    }
  }

  lemma {:induction false} StackedZero(ms: seq<Mount>, p: string)
    ensures Stacked(ms, p) == 0 <==> forall m :: m in ms ==> m.line.point != p
  {
    if ms != [] {
      StackedZero(ms[..|ms| - 1], p);
      assert ms == ms[..|ms| - 1] + [ms[|ms| - 1]];
    }
  }

  /** The mounts elsewhere, in order. */
  function Elsewhere(ms: seq<Mount>, dir: string): seq<Mount> {
    if ms == [] then []
    else
      var init, m := Elsewhere(ms[..|ms| - 1], dir), ms[|ms| - 1];
      if Under(dir, m.line.point) then init else init + [m]
  }

  /** After the sort no mount point comes before one strictly below it. */
  lemma DeepestFirst(points: seq<string>, i: nat, j: nat)
    requires LongestFirst(points) && i < j < |points|
    ensures points[j] != points[i] ==> !Under(points[i], points[j])
  {
    if points[j] != points[i] && Under(points[i], points[j]) {
      BelowIsLonger(points[i], points[j]);
    }
  }

  lemma UnderTrans(dir: string, mp: string, p: string)
    requires Under(dir, mp) && Under(mp, p)
    ensures Under(dir, p)
  {
    if mp != dir && p != mp {
      var trimmed := Prefix(mp)[..|Prefix(mp)| - 1];
      assert HasPrefix(mp, Prefix(dir)) && HasPrefix(p, Prefix(mp));
      if HasSuffix(mp, "/") {
        assert mp == trimmed + "/" == Prefix(mp);
      } else {
        assert mp == trimmed;
      }
    }
  }

  /** Only mounts at or below `mp` are gone. */
  predicate Trimmed(before: seq<Mount>, after: seq<Mount>, mp: string) {
    (forall m :: m in after ==> m in before) && Elsewhere(after, mp) == Elsewhere(before, mp)
  }

  /** Nothing is mounted strictly below `mp`. */
  predicate Childless(ms: seq<Mount>, mp: string) {
    forall m :: m in ms && Under(mp, m.line.point) ==> m.line.point == mp
  }

  lemma {:induction false} ElsewhereNested(ms: seq<Mount>, dir: string, mp: string)
    requires Under(dir, mp)
    ensures Elsewhere(Elsewhere(ms, mp), dir) == Elsewhere(ms, dir)
  {
    if ms != [] {
      var init, m := ms[..|ms| - 1], ms[|ms| - 1];
      ElsewhereNested(init, dir, mp);
      if Under(mp, m.line.point) {
        UnderTrans(dir, mp, m.line.point);
      } else {
        assert (Elsewhere(init, mp) + [m])[..|Elsewhere(init, mp)|] == Elsewhere(init, mp);
      }
    }
  }

  lemma TrimmedNone(ms: seq<Mount>, mp: string)
    ensures Trimmed(ms, ms, mp)
  {
  }

  lemma TrimmedWider(before: seq<Mount>, after: seq<Mount>, dir: string, mp: string)
    requires Under(dir, mp) && Trimmed(before, after, mp)
    ensures Trimmed(before, after, dir)
  {
    ElsewhereNested(before, dir, mp);
    ElsewhereNested(after, dir, mp);
  }

  /** The table after umount2(2) with MNT_DETACH at `mp`, where something is mounted: the
      topmost mount there is gone, and so is all that was mounted on top of it since. */
  function Peel(ms: seq<Mount>, mp: string): seq<Mount> {
    if ms == [] then []
    else
      var init, m := ms[..|ms| - 1], ms[|ms| - 1];
      if m.line.point == mp then init
      else if Under(mp, m.line.point) then Peel(init, mp)
      else Peel(init, mp) + [m]
  }

  /** The table after detaching, one after the other, at `points`. */
  function PeelAll(ms: seq<Mount>, points: seq<string>): seq<Mount> {
    if points == [] then ms
    else
      var before, mp := PeelAll(ms, points[..|points| - 1]), points[|points| - 1];
      if Stacked(before, mp) == 0 then before else Peel(before, mp)
  }

  /** `ms'` is what detaching at points at or below `dir` can leave of `ms`. */
  ghost predicate Peeled(ms: seq<Mount>, ms': seq<Mount>, dir: string) {
    exists points: seq<string> :: (forall p :: p in points ==> Under(dir, p)) && ms' == PeelAll(ms, points)
  }

  lemma {:induction false} PeelTrims(ms: seq<Mount>, mp: string)
    ensures Trimmed(ms, Peel(ms, mp), mp)
  {
    if ms != [] {
      var init, m := ms[..|ms| - 1], ms[|ms| - 1];
      PeelTrims(init, mp);
      assert ms == init + [m];
      var rest := Peel(init, mp);
      assert (rest + [m])[..|rest|] == rest;
    }
  }

  /** Where nothing is mounted strictly below, exactly one mount goes. */
  lemma {:induction false} PeelOne(ms: seq<Mount>, mp: string, p: string)
    requires Childless(ms, mp) && Stacked(ms, mp) > 0
    ensures Stacked(ms, p) == Stacked(Peel(ms, mp), p) + (if p == mp then 1 else 0)
  {
    var init, m := ms[..|ms| - 1], ms[|ms| - 1];
    assert ms == init + [m];
    if m.line.point != mp {
      assert m in ms;
      PeelOne(init, mp, p);
      var rest := Peel(init, mp);
      assert (rest + [m])[..|rest|] == rest;
    }
  }

  /** What is not at or below `mp` stays. */
  lemma {:induction false} PeelKeeps(ms: seq<Mount>, mp: string, g: Mount)
    requires g in ms && !Under(mp, g.line.point)
    ensures g in Peel(ms, mp)
  {
    var init, m := ms[..|ms| - 1], ms[|ms| - 1];
    assert ms == init + [m];
    if g in init {
      PeelKeeps(init, mp, g);
    }
  }

  /** A mount never outlives what it lies on. */
  lemma {:induction false} PeelCarried(ms: seq<Mount>, mp: string, c: Claim)
    requires Carried(ms, c)
    ensures Carried(Peel(ms, mp), c)
  {
    hide Concerns, Carries, Under;
    if ms != [] {
      var init, m := ms[..|ms| - 1], ms[|ms| - 1];
      PeelCarried(init, mp, c);
      var rest := Peel(init, mp);
      assert (rest + [m])[..|rest|] == rest;
      if !Under(mp, m.line.point) && Concerns(c, m) {
        var g :| g in init && Carries(c, g, m);
        CarrierAbove(c, g, m);
        if Under(mp, g.line.point) {
          UnderTrans(mp, g.line.point, m.line.point);
        }
        PeelKeeps(init, mp, g);
      }
    }
  }

  lemma {:induction false} PeelAllAppend(ms: seq<Mount>, a: seq<string>, b: seq<string>)
    ensures PeelAll(ms, a + b) == PeelAll(PeelAll(ms, a), b)
  {
    if b == [] {
      assert a + b == a;
    } else {
      PeelAllAppend(ms, a, b[..|b| - 1]);
      assert (a + b)[..|a + b| - 1] == a + b[..|b| - 1];
    }
  }

  lemma PeeledNone(ms: seq<Mount>, dir: string)
    ensures Peeled(ms, ms, dir)
  {
    assert PeelAll(ms, []) == ms;
  }

  lemma PeeledOnce(ms: seq<Mount>, mp: string)
    requires Stacked(ms, mp) > 0
    ensures Peeled(ms, Peel(ms, mp), mp)
  {
    assert [mp][..0] == [];
    assert PeelAll(ms, []) == ms;
    assert PeelAll(ms, [mp]) == Peel(ms, mp);
  }

  lemma PeeledMore(ms: seq<Mount>, ms': seq<Mount>, ms'': seq<Mount>, dir: string, mp: string)
    requires Peeled(ms, ms', dir) && Peeled(ms', ms'', mp) && Under(dir, mp)
    ensures Peeled(ms, ms'', dir)
  {
    hide Under, Peel, Stacked;
    var a: seq<string> :| (forall p :: p in a ==> Under(dir, p)) && ms' == PeelAll(ms, a);
    var b: seq<string> :| (forall p :: p in b ==> Under(mp, p)) && ms'' == PeelAll(ms', b);
    PeelAllAppend(ms, a, b);
    forall p | p in b
      ensures Under(dir, p)
    {
      UnderTrans(dir, mp, p);
    }
    assert forall p :: p in a + b ==> Under(dir, p);
  }

  lemma {:induction false} PeelAllTrims(ms: seq<Mount>, points: seq<string>, dir: string)
    requires forall p :: p in points ==> Under(dir, p)
    ensures Trimmed(ms, PeelAll(ms, points), dir)
  {
    hide Under, Peel, Stacked, Elsewhere;
    if points != [] {
      var init, mp := points[..|points| - 1], points[|points| - 1];
      assert mp in points && forall p :: p in init ==> p in points;
      PeelAllTrims(ms, init, dir);
      var before := PeelAll(ms, init);
      PeelTrims(before, mp);
      TrimmedWider(before, Peel(before, mp), dir, mp);
    }
  }

  lemma {:induction false} PeelAllCarried(ms: seq<Mount>, points: seq<string>, c: Claim)
    requires Carried(ms, c)
    ensures Carried(PeelAll(ms, points), c)
  {
    hide Carried, Peel, Stacked;
    if points != [] {
      var init, mp := points[..|points| - 1], points[|points| - 1];
      PeelAllCarried(ms, init, c);
      PeelCarried(PeelAll(ms, init), mp, c);
    }
  }

  /** However far detaching got: only mounts at or below `at` are gone. */
  lemma PeeledTrims(ms: seq<Mount>, ms': seq<Mount>, at: string)
    requires Peeled(ms, ms', at)
    ensures Trimmed(ms, ms', at)
  {
    hide Trimmed, PeelAll;
    var points: seq<string> :| (forall p :: p in points ==> Under(at, p)) && ms' == PeelAll(ms, points);
    PeelAllTrims(ms, points, at);
  }

  /** And what lay on something still does. */
  lemma PeeledCarried(ms: seq<Mount>, ms': seq<Mount>, at: string, c: Claim)
    requires Peeled(ms, ms', at) && Carried(ms, c)
    ensures Carried(ms', c)
  {
    hide Carried, PeelAll;
    var points: seq<string> :| (forall p :: p in points ==> Under(at, p)) && ms' == PeelAll(ms, points);
    PeelAllCarried(ms, points, c);
  }

  lemma {:induction false} ListedUnder(ms: seq<Mount>, dir: string)
    requires ValidTable(ms)
    ensures forall p :: p in Listing(ms, dir) ==> Under(dir, p)
  {
    if ms != [] {
      ListedUnder(ms[..|ms| - 1], dir);
    }
  }

  /** What a recursive removal of `dir` would delete through mounts. */
  function Sources(ms: seq<Mount>, dir: string): set<Source> {
    set m | m in ms && Under(dir, m.line.point) :: m.source
  }

  /** What a bind puts into the table: the source at `p`, and, if it is recursive, whatever
      is mounted below the source below `p`. */
  predicate BoundAt(ms: seq<Mount>, p: string) {
    && ms != [] && ms[0].line.point == p
    && (forall m :: m in ms ==> ValidLine(m.line) && Under(p, m.line.point))
    && (forall i :: 1 <= i < |ms| ==> ms[i].line.point != p)
  }

  /** What is seen at `p`: the source of the mount that was put there last. */
  function SourceAt(ms: seq<Mount>, p: string): Option<Source> {
    if ms == [] then None
    else if ms[|ms| - 1].line.point == p then Some(ms[|ms| - 1].source)
    else SourceAt(ms[..|ms| - 1], p)
  }

  lemma {:induction false} BindShows(ms: seq<Mount>, added: seq<Mount>, p: string)
    requires added != [] && added[0].line.point == p && forall i :: 1 <= i < |added| ==> added[i].line.point != p
    ensures SourceAt(ms + added, p) == Some(added[0].source)
  {
    var init := added[..|added| - 1];
    assert (ms + added)[..|ms + added| - 1] == ms + init;
    if |added| > 1 {
      BindShows(ms, init, p);
    }
  }

  lemma UnmountGoesOn(first: seq<Mount>, before: seq<Mount>, mp: string)
    requires Peeled(first, before, mp) && Stacked(before, mp) > 0
    ensures Peeled(first, Peel(before, mp), mp)
  {
    PeeledOnce(before, mp);
    PeeledMore(first, before, Peel(before, mp), mp, mp);
  }

  lemma SomeMount(source: Source, path: string)
    requires IsPath(path)
    ensures BoundAt([Mount(Line("1", "1", "0:1", "/", path, "rw"), source)], path)
  {
    SomeWord("1"); SomeWord("0:1"); SomeWord("rw");
    FieldsWord("rw");
    assert ValidLine(Line("1", "1", "0:1", "/", path, "rw"));
  }

  lemma SomeWord(s: string)
    requires s != [] && forall c :: c in s ==> '/' <= c <= 'z'
    ensures Word(s)
  {
  }

  /** There is nothing below `path`. */
  predicate Alone(entries: set<string>, path: string) {
    forall e :: e in entries && Under(path, e) ==> e == path
  }

  class Mounts {
    var mounts: seq<Mount>
    /** The files and directories of the staging file system itself. */
    var entries: set<string>
    /** The sources something was deleted through a mount of. */
    var destroyed: set<Source>
    /** The table can be read, what is asked for can be made and mounted where nothing is yet,
        a mount with nothing below it can be detached, and a directory free of mounts can be
        removed. */
    const obliging: bool

    constructor (mounts: seq<Mount>, entries: set<string>, obliging: bool)
      requires ValidTable(mounts)
      ensures Valid() && this.mounts == mounts && this.entries == entries && destroyed == {}
                && this.obliging == obliging
    {
      this.mounts, this.entries, this.destroyed, this.obliging := mounts, entries, {}, obliging;
    }

    ghost predicate Valid()
      reads this
    {
      ValidTable(mounts)
    }

    /** mkdir(2), or open(2) with O_EXCL: only where nothing is yet. */
    method Make(path: string) returns (ok: bool)
      modifies this`entries
      ensures ok ==> path !in old(entries)
      ensures entries == if ok then old(entries) + {path} else old(entries)
      ensures obliging && path !in old(entries) ==> ok
    {
      var fails: bool := *;
      ok := path !in entries && (obliging || !fails);
      if ok {
        entries := entries + {path};
      }
    }

    /** os.MkdirAll and the checks that the directory is safe to mount into. */
    method MakeSafe(dir: string) returns (made: bool, safe: bool)
      modifies this`entries
      ensures entries == if made then old(entries) + {dir} else old(entries)
      ensures (safe ==> made) && (obliging ==> safe)
    {
      made, safe := *, *;
      made := made || obliging;
      safe := made && (safe || obliging);
      if made {
        entries := entries + {dir};
      }
    }

    /** mount(2) with MS_BIND and, on request, MS_REC: the source appears at `path`, and what
        is mounted below the source appears below `path`. */
    method Bind(source: Source, path: string, recursive: bool) returns (added: seq<Mount>)
      requires Valid()
      modifies this`mounts
      ensures Valid() && mounts == old(mounts) + added
      ensures added != [] ==> BoundAt(added, path) && added[0].source == source && (recursive || |added| == 1)
      ensures obliging && IsPath(path) ==> added != []
    {
      added := *;
      if !(BoundAt(added, path) && added[0].source == source && (recursive || |added| == 1)) {
        added := [];
        if obliging && IsPath(path) {
          SomeMount(source, path);
          added := [Mount(Line("1", "1", "0:1", "/", path, "rw"), source)];
        }
      }
      mounts := mounts + added;
    }

    /** mountPointsUnder: scan the lines of the table. */
    method MountPointsUnder(dir: string) returns (r: Option<seq<string>>)
      requires Valid()
      ensures obliging ==> r.Some?
      ensures r.Some? ==> r.value == Listing(mounts, dir)
    {
      hide Fields, LineText, Escape, Unescape, Clean, CleanPrefix;
      var fails: bool := *;
      if fails && !obliging { return None; }
      var out: seq<string> := [];
      for i := 0 to |mounts|
        invariant out == Listing(mounts[..i], dir)
      {
        var l := mounts[i].line;
        LineFields(l);
        FirstField(l.root);
        FirstField(l.point);
        var fields := Fields(LineText(l));
        assert mounts[..i + 1][..i] == mounts[..i];
        if |fields| < 5 { continue; }
        var mp := UnescapeMountPath(fields[4]);
        if mp == dir || HasPrefix(mp, Prefix(dir)) {
          out := out + [mp];
        }
      }
      assert mounts[..|mounts|] == mounts;
      r := Some(out);
    }

    /** umount2(2) with MNT_DETACH at `mp`. */
    method Unmount(mp: string) returns (ok: bool)
      requires Valid()
      modifies this`mounts
      ensures Valid() && (ok ==> Stacked(old(mounts), mp) > 0)
      ensures mounts == if ok then Peel(old(mounts), mp) else old(mounts)
      ensures obliging && Childless(old(mounts), mp) && Stacked(old(mounts), mp) > 0 ==> ok
    {
      var fails: bool := *;
      if Stacked(mounts, mp) == 0 || (fails && !(obliging && Childless(mounts, mp))) { return false; }
      PeelTrims(mounts, mp);
      mounts := Peel(mounts, mp);
      ok := true;
    }

    /** detachMount: unmount until nothing is left at `mp`, at most 16 times. */
    method DetachMount(mp: string)
      requires Valid()
      modifies this`mounts
      ensures Valid() && Peeled(old(mounts), mounts, mp) && Trimmed(old(mounts), mounts, mp)
      ensures obliging && Childless(old(mounts), mp) ==>
                && (forall p :: p != mp ==> Stacked(mounts, p) == Stacked(old(mounts), p))
                && Stacked(mounts, mp) == if Stacked(old(mounts), mp) <= 16 then 0 else Stacked(old(mounts), mp) - 16
    {
      hide Peel, Peeled, Stacked, Under, Elsewhere;
      PeeledNone(mounts, mp);
      ghost var sure := obliging && Childless(mounts, mp);
      for i := 0 to 16
        invariant Valid() && Peeled(old(mounts), mounts, mp)
        invariant sure ==>
                    && Childless(mounts, mp) && Stacked(old(mounts), mp) >= i
                    && Stacked(mounts, mp) == Stacked(old(mounts), mp) - i
                    && (forall p :: p != mp ==> Stacked(mounts, p) == Stacked(old(mounts), p))
      {
        ghost var before := mounts;
        var ok := Unmount(mp);
        if !ok { break; }
        UnmountGoesOn(old(mounts), before, mp);
        if sure {
          forall p
            ensures Stacked(before, p) == Stacked(mounts, p) + (if p == mp then 1 else 0)
          {
            PeelOne(before, mp, p);
          }
          PeelTrims(before, mp);
        }
      }
      PeeledTrims(old(mounts), mounts, mp);
    }

    /** os.RemoveAll: what is visible through a mount below `dir` goes with it. */
    method RemoveAll(dir: string) returns (ok: bool)
      modifies this`entries, this`destroyed
      ensures destroyed == old(destroyed) + Sources(mounts, dir)
      ensures entries <= old(entries) && forall e :: e in old(entries) && !Under(dir, e) ==> e in entries
      ensures ok ==> forall e :: e in entries ==> !Under(dir, e)
      ensures obliging && Free(mounts, dir) ==> ok
    {
      destroyed := destroyed + Sources(mounts, dir);
      var fails: bool := *;
      ok := obliging || !fails;
      entries := set e | e in entries && (!ok || !Under(dir, e));
    }

    /** os.Remove of a mountpoint: never recursive, and refused while something is mounted there. */
    method Remove(path: string) returns (ok: bool)
      modifies this`entries
      ensures entries == if ok then old(entries) - {path} else old(entries)
      ensures ok ==> Stacked(mounts, path) == 0
      ensures obliging && Stacked(mounts, path) == 0 && Alone(entries, path) ==> ok
    {
      var fails: bool := *;
      ok := Stacked(mounts, path) == 0 && (obliging || !fails) && Alone(entries, path);
      if ok {
        entries := entries - {path};
      }
    }

    /** unmountAndRemove: release one staged source. */
    method UnmountAndRemove(target: string) returns (ok: bool)
      requires Valid()
      modifies this`mounts, this`entries
      ensures Valid() && Peeled(old(mounts), mounts, target) && Trimmed(old(mounts), mounts, target)
      ensures entries == if ok then old(entries) - {target} else old(entries)
      ensures ok ==> Listing(mounts, target) == [] && Stacked(mounts, target) == 0
      ensures obliging && Legible(old(mounts), target) && Childless(old(mounts), target)
                && Stacked(old(mounts), target) <= 16 ==>
                ok || exists e :: e in entries && Under(target, e) && e != target
    {
      DetachMount(target);
      var left := MountPointsUnder(target);
      if left.None? { return false; }
      if obliging && Legible(old(mounts), target) && Childless(old(mounts), target)
        && Stacked(old(mounts), target) <= 16 {
        StackedZero(mounts, target);
        FreeListing(mounts, target);
      }
      if |left.value| > 0 { return false; }
      ok := Remove(target);
    }

    /** The loop over the sorted points. If every line can be read and a mount with nothing
        below it can be detached, nothing is left, however high the mounts were stacked. */
    method DetachAll(dir: string, points: seq<string>)
      requires Valid() && LongestFirst(points) && forall p :: p in points ==> Under(dir, p)
      modifies this`mounts
      ensures Valid() && Peeled(old(mounts), mounts, dir) && Trimmed(old(mounts), mounts, dir)
      ensures points == [] ==> mounts == old(mounts)
      ensures obliging && Legible(old(mounts), dir) && multiset(points) == multiset(Listing(old(mounts), dir)) ==>
                Free(mounts, dir)
    {
      hide Under, Elsewhere, Listing, LongestFirst, ValidTable, Peeled, Trimmed, Stacked, Legible;
      PeeledNone(mounts, dir);
      ghost var sure := obliging && Legible(mounts, dir) && multiset(points) == multiset(Listing(mounts, dir));
      if sure {
        CoveredFirst(mounts, dir, points);
      }
      for i := 0 to |points|
        invariant Valid() && Peeled(old(mounts), mounts, dir)
        invariant i == 0 ==> mounts == old(mounts)
        invariant sure ==> Covered(mounts, dir, points[i..])
      {
        var mp := points[i];
        ghost var before := mounts;
        if sure {
          NoneBelow(mounts, dir, points, i);
        }
        DetachMount(mp);
        PeeledMore(old(mounts), before, mounts, dir, mp);
        if sure {
          CoveredNext(before, mounts, dir, points, i);
        }
      }
      if sure {
        CoveredLast(mounts, dir, points[|points|..]);
      }
      PeeledTrims(old(mounts), mounts, dir);
    }

    /** unmountTreeAndRemove: detach every mount at or below `dir`, deepest first, and remove
        the directory only if a second listing is empty. */
    method UnmountTreeAndRemove(dir: string) returns (ok: bool)
      requires Valid()
      modifies this
      ensures Valid() && Peeled(old(mounts), mounts, dir) && Trimmed(old(mounts), mounts, dir)
      ensures entries <= old(entries) && forall e :: e in old(entries) && !Under(dir, e) ==> e in entries
      ensures (entries == old(entries) && destroyed == old(destroyed) && !ok)
              || (Listing(mounts, dir) == [] && destroyed == old(destroyed) + Sources(mounts, dir))
      ensures forall x :: x in destroyed && x !in old(destroyed) ==>
                HiddenSource(mounts, dir, x) && !Guarded(old(mounts), dir, x)
      ensures (forall x :: Guarded(old(mounts), dir, x)) ==> destroyed == old(destroyed)
      ensures obliging && Listing(old(mounts), dir) == [] ==> destroyed == old(destroyed) + Sources(old(mounts), dir)
      ensures ok ==> forall e :: e in entries ==> !Under(dir, e)
      ensures obliging && Legible(old(mounts), dir) ==> ok && Free(mounts, dir)
    {
      hide Peeled, Carried, HiddenSource, Stacked, Under, Elsewhere, ParsedPoint;
      PeeledNone(mounts, dir);
      var first := MountPointsUnder(dir);
      if first.None? { return false; }
      var points := SortLongestFirst(first.value);
      SameMembers(points, first.value);
      ListedUnder(mounts, dir);
      DetachAll(dir, points);
      var second := MountPointsUnder(dir);
      if second.None? { return false; }
      if obliging && Legible(old(mounts), dir) {
        FreeListing(mounts, dir);
      }
      if |second.value| > 0 { return false; }
      forall x | x in Sources(mounts, dir)
        ensures HiddenSource(mounts, dir, x) && !Guarded(old(mounts), dir, x)
      {
        WhatIsDeleted(mounts, dir, x);
        if Guarded(old(mounts), dir, x) {
          PeeledCarried(old(mounts), mounts, dir, Seen(dir, x));
        }
      }
      ok := RemoveAll(dir);
    }
  }

  /** The mounts at or below `dir`, in order. */
  function AtOrBelow(ms: seq<Mount>, dir: string): seq<Mount> {
    if ms == [] then []
    else
      var init, m := AtOrBelow(ms[..|ms| - 1], dir), ms[|ms| - 1];
      if Under(dir, m.line.point) then init + [m] else init
  }

  function JobDir(root: string, job: string): string {
    root + "/" + job
  }

  /** The directories of two jobs share no path, also when one name is a prefix of the other. */
  lemma JobsApart(root: string, job: string, other: string, p: string)
    requires PlainName(job) && PlainName(other) && job != other
    ensures !(Under(JobDir(root, job), p) && Under(JobDir(root, other), p))
  {
    if Under(JobDir(root, job), p) && Under(JobDir(root, other), p) {
      NotShorter(root, job, other, p);
      NotShorter(root, other, job, p);
      JobOf(root, job, p);
      JobOf(root, other, p);
      assert false;
    }
  }

  lemma NotShorter(root: string, job: string, other: string, p: string)
    requires PlainName(job) && PlainName(other)
    requires Under(JobDir(root, job), p) && Under(JobDir(root, other), p)
    ensures |job| >= |other|
  {
    JobOf(root, job, p);
    JobOf(root, other, p);
  }

  lemma JobOf(root: string, job: string, p: string)
    requires PlainName(job) && Under(JobDir(root, job), p)
    ensures var n := |root| + 1 + |job|;
            |p| >= n && p[|root| + 1..n] == job && (|p| > n ==> p[n] == '/')
  {
    var dir := JobDir(root, job);
    assert dir[|dir| - 1] == job[|job| - 1];
    assert !HasSuffix(dir, "/");
    assert Prefix(dir) == dir + "/";
    assert dir[|root| + 1..] == job;
    assert p[..|dir|] == dir;
  }

  lemma {:induction false} ApartKeeps(ms: seq<Mount>, root: string, job: string, other: string)
    requires PlainName(job) && PlainName(other) && job != other
    ensures AtOrBelow(Elsewhere(ms, JobDir(root, job)), JobDir(root, other)) == AtOrBelow(ms, JobDir(root, other))
  {
    if ms != [] {
      var init, m := ms[..|ms| - 1], ms[|ms| - 1];
      ApartKeeps(init, root, job, other);
      JobsApart(root, job, other, m.line.point);
      var rest := Elsewhere(init, JobDir(root, job));
      assert (rest + [m])[..|rest|] == rest;
    }
  }

  /** sweepStagedBindsForJob: one job's directory goes, every other job's mounts and files stay. */
  method SweepStagedBindsForJob(t: Mounts, root: string, job: string)
    requires t.Valid() && PlainName(job)
    modifies t
    ensures t.Valid()
    ensures forall other :: PlainName(other) && other != job ==>
              && AtOrBelow(t.mounts, JobDir(root, other)) == AtOrBelow(old(t.mounts), JobDir(root, other))
              && forall e :: Under(JobDir(root, other), e) ==> (e in t.entries <==> e in old(t.entries))
    ensures forall x :: x in t.destroyed && x !in old(t.destroyed) ==>
              HiddenSource(t.mounts, JobDir(root, job), x) && !Guarded(old(t.mounts), JobDir(root, job), x)
    ensures (forall x :: Guarded(old(t.mounts), JobDir(root, job), x)) ==> t.destroyed == old(t.destroyed)
    ensures t.obliging && Legible(old(t.mounts), JobDir(root, job)) && JobDir(root, job) in old(t.entries) ==>
              Free(t.mounts, JobDir(root, job)) && forall e :: e in t.entries ==> !Under(JobDir(root, job), e)
  {
    var dir := JobDir(root, job);
    if dir !in t.entries { return; }
    var ok := t.UnmountTreeAndRemove(dir);
    forall other | PlainName(other) && other != job
      ensures AtOrBelow(t.mounts, JobDir(root, other)) == AtOrBelow(old(t.mounts), JobDir(root, other))
      ensures forall e :: Under(JobDir(root, other), e) ==> (e in t.entries <==> e in old(t.entries))
    {
      ApartKeeps(old(t.mounts), root, job, other);
      ApartKeeps(t.mounts, root, job, other);
      forall e | Under(JobDir(root, other), e)
        ensures e in t.entries <==> e in old(t.entries)
      {
        JobsApart(root, job, other, e);
      }
    }
  }

  /** Every mount at or below `dir` still has its turn coming. */
  ghost predicate Covered(ms: seq<Mount>, dir: string, points: seq<string>) {
    forall p :: Under(dir, p) ==> Stacked(ms, p) <= multiset(points)[p]
  }

  lemma CoveredFirst(ms: seq<Mount>, dir: string, points: seq<string>)
    requires ValidTable(ms) && Legible(ms, dir) && multiset(points) == multiset(Listing(ms, dir))
    ensures Covered(ms, dir, points[0..])
  {
    LegibleListing(ms, dir);
    assert points[0..] == points;
    forall p | Under(dir, p)
      ensures Stacked(ms, p) <= multiset(points)[p]
    {
      StackedListed(ms, dir, p);
    }
  }

  lemma CoveredNext(ms: seq<Mount>, ms': seq<Mount>, dir: string, points: seq<string>, i: nat)
    requires i < |points| && Covered(ms, dir, points[i..])
    requires forall p :: p != points[i] ==> Stacked(ms', p) == Stacked(ms, p)
    requires Stacked(ms', points[i]) == if Stacked(ms, points[i]) <= 16 then 0 else Stacked(ms, points[i]) - 16
    ensures Covered(ms', dir, points[i + 1..])
  {
    assert points[i..] == [points[i]] + points[i + 1..];
    assert multiset(points[i..]) == multiset{points[i]} + multiset(points[i + 1..]);
  }

  lemma CoveredLast(ms: seq<Mount>, dir: string, points: seq<string>)
    requires Covered(ms, dir, points) && points == []
    ensures Free(ms, dir)
  {
    forall m | m in ms
      ensures !Under(dir, m.line.point)
    {
      StackedZero(ms, m.line.point);
    }
  }

  /** When it is a point's turn nothing is mounted below it any more. */
  lemma NoneBelow(ms: seq<Mount>, dir: string, points: seq<string>, i: nat)
    requires LongestFirst(points) && i < |points| && Under(dir, points[i]) && Covered(ms, dir, points[i..])
    ensures Childless(ms, points[i])
  {
    forall m | m in ms && Under(points[i], m.line.point)
      ensures m.line.point == points[i]
    {
      var p := m.line.point;
      UnderTrans(dir, points[i], p);
      StackedZero(ms, p);
      assert p in multiset(points[i..]);
      assert p in points[i..];
      var j :| i <= j < |points| && points[j] == p;
      if p != points[i] {
        DeepestFirst(points, i, j);
      }
    }
  }

  lemma {:induction false} FreeListing(ms: seq<Mount>, dir: string)
    requires ValidTable(ms) && Legible(ms, dir) && Free(ms, dir)
    ensures Listing(ms, dir) == []
  {
    hide Under, ParsedPoint;
    if ms != [] {
      var init := ms[..|ms| - 1];
      assert ms == init + [ms[|ms| - 1]];
      assert forall m :: m in init ==> m in ms;
      FreeListing(init, dir);
    }
  }
}
