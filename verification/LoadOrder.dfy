/** The order in which kernel modules are loaded: the closure `add` of
    mage/download/download.go, a depth-first walk of modules.dep. */
module LoadOrder {

  type Deps = map<string, seq<string>>

  function DepsOf(deps: Deps, m: string): seq<string> {
    if m in deps then deps[m] else []
  }

  /** Each element depends on the next. */
  ghost predicate Path(deps: Deps, p: seq<string>) {
    forall i :: 0 <= i < |p| - 1 ==> p[i] in deps && p[i + 1] in deps[p[i]]
  }

  ghost predicate PathFromTo(deps: Deps, p: seq<string>, m: string, x: string) {
    |p| > 0 && p[0] == m && p[|p| - 1] == x && Path(deps, p)
  }

  ghost predicate Reaches(deps: Deps, m: string, x: string) {
    exists p :: PathFromTo(deps, p, m, x)
  }

  ghost predicate NoRepeat(p: seq<string>) {
    forall i, j :: 0 <= i < j < |p| ==> p[i] != p[j]
  }

  /** No cycle can be reached from `m`: following dependencies never comes back. */
  ghost predicate AcyclicFrom(deps: Deps, m: string) {
    forall p :: Path(deps, p) && |p| > 0 && p[0] == m ==> NoRepeat(p)
  }

  /** Every module stands after all of its dependencies, which are there. */
  ghost predicate Ordered(deps: Deps, order: seq<string>) {
    forall i, d :: 0 <= i < |order| && order[i] in deps && d in deps[order[i]] ==> d in order[..i]
  }

  function Members(s: seq<string>): set<string> {
    set x | x in s
  }

  /** Everything the dependency file mentions. */
  ghost function Mentioned(deps: Deps): set<string> {
    deps.Keys + set m, d | m in deps && d in deps[m] :: d
  }

  lemma PathExtends(deps: Deps, p: seq<string>, d: string)
    requires Path(deps, p) && |p| > 0 && d in DepsOf(deps, p[|p| - 1])
    ensures Path(deps, p + [d])
  {
  }

  lemma PathJoins(deps: Deps, p: seq<string>, q: seq<string>)
    requires Path(deps, p) && Path(deps, q) && |p| > 0 && |q| > 0 && p[|p| - 1] == q[0]
    ensures Path(deps, p + q[1..])
  {
    var r := p + q[1..];
    forall i | 0 <= i < |r| - 1
      ensures r[i + 1] in DepsOf(deps, r[i])
    {
      if i >= |p| - 1 {
        assert r[i] == q[i - (|p| - 1)] && r[i + 1] == q[i + 1 - (|p| - 1)];
      }
    }
  }

  lemma ReachesVia(deps: Deps, m: string, d: string, x: string)
    requires d in DepsOf(deps, m) && Reaches(deps, d, x)
    ensures Reaches(deps, m, x)
  {
    var p :| PathFromTo(deps, p, d, x);
    assert [m] + p == [m, d] + p[1..];
    PathJoins(deps, [m, d], p);
    assert PathFromTo(deps, [m] + p, m, x);
  }

  lemma ReachesSelf(deps: Deps, m: string)
    ensures Reaches(deps, m, m)
  {
    assert PathFromTo(deps, [m], m, m);
  }

  /** What a path leads to never leads back to where the path stands. */
  lemma NeverBack(deps: Deps, path: seq<string>, d: string, x: string)
    requires Path(deps, path) && |path| > 0 && AcyclicFrom(deps, path[0])
    requires d in DepsOf(deps, path[|path| - 1]) && Reaches(deps, d, x)
    ensures x !in path
  {
    var q :| PathFromTo(deps, q, d, x);
    PathExtends(deps, path, d);
    PathJoins(deps, path + [d], q);
    hide Path;
    var whole := path + [d] + q[1..];
    assert NoRepeat(whole);
    assert whole[|whole| - 1] == x;
    forall i | 0 <= i < |path|
      ensures path[i] != x
    {
      assert whole[i] == path[i];
    }
  }

  /** The walk may go one step down: it stays on a path, and on ever fewer new modules. */
  lemma StepDown(deps: Deps, path: seq<string>, d: string)
    requires Path(deps, path) && |path| > 0 && AcyclicFrom(deps, path[0])
    requires Members(path) <= Mentioned(deps) + {path[0]} && d in DepsOf(deps, path[|path| - 1])
    ensures Path(deps, path + [d]) && Members(path + [d]) <= Mentioned(deps) + {path[0]}
    ensures |path| + 1 <= |Mentioned(deps) + {path[0]}|
  {
    PathExtends(deps, path, d);
    assert Members(path + [d]) == Members(path) + {d};
    PathFits(path + [d], Mentioned(deps) + {path[0]});
  }

  lemma AppendKeeps(deps: Deps, order: seq<string>, rel: string)
    requires NoRepeat(order) && Ordered(deps, order) && rel !in order
    requires forall d :: d in DepsOf(deps, rel) ==> d in order
    ensures NoRepeat(order + [rel]) && Ordered(deps, order + [rel])
  {
    var longer := order + [rel];
    forall i, d | 0 <= i < |longer| && d in DepsOf(deps, longer[i])
      ensures d in longer[..i]
    {
      if i < |order| {
        assert longer[..i] == order[..i];
      } else {
        assert longer[..i] == order;
      }
    }
  }

  lemma {:induction false} PathFits(path: seq<string>, universe: set<string>)
    requires NoRepeat(path) && Members(path) <= universe
    ensures |path| <= |universe|
  {
    if path != [] {
      var last := path[|path| - 1];
      var init := path[..|path| - 1];
      assert Members(init) <= universe - {last};
      PathFits(init, universe - {last});
    }
  }

  /** Being in an ordered list closes over dependencies. */
  lemma {:induction false} OrderedCloses(deps: Deps, order: seq<string>, p: seq<string>)
    requires Ordered(deps, order) && Path(deps, p) && |p| > 0 && p[0] in order
    ensures p[|p| - 1] in order
    decreases |p|
  {
    if |p| > 1 {
      var i :| 0 <= i < |order| && order[i] == p[0];
      assert p[0 + 1] in DepsOf(deps, p[0]);
      assert p[1] in order[..i];
      var q := p[1..];
      forall k | 0 <= k < |q| - 1
        ensures q[k + 1] in DepsOf(deps, q[k])
      {
        assert p[k + 1 + 1] in DepsOf(deps, p[k + 1]);
      }
      OrderedCloses(deps, order, q);
    }
  }

  class Loader {
    const deps: Deps
    const prefix: string
    var wanted: set<string>
    var loadOrder: seq<string>

    constructor (deps: Deps, prefix: string)
      ensures this.deps == deps && this.prefix == prefix && loadOrder == [] && Valid()
    {
      this.deps, this.prefix, this.wanted, this.loadOrder := deps, prefix, {}, [];
    }

    /** The list has no duplicates and every module after its dependencies; the set is the
        list, each name behind the module directory. */
    ghost predicate Valid()
      reads this
    {
      && NoRepeat(loadOrder) && Ordered(deps, loadOrder)
      && wanted == set m | m in loadOrder :: prefix + m
    }

    lemma WantedIsListed(rel: string)
      requires Valid()
      ensures prefix + rel in wanted <==> rel in loadOrder
    {
      if prefix + rel in wanted {
        var m :| m in loadOrder && prefix + m == prefix + rel;
        assert (prefix + m)[|prefix|..] == m && (prefix + rel)[|prefix|..] == rel;
      }
    }

    /** The recursive closure. `path` is how the walk got to `rel`. */
    method Add(rel: string, ghost path: seq<string>)
      requires Valid()
      requires Path(deps, path) && |path| > 0 && path[|path| - 1] == rel && AcyclicFrom(deps, path[0])
      requires Members(path) <= Mentioned(deps) + {path[0]}
      modifies this
      ensures Valid() && old(loadOrder) <= loadOrder && rel in loadOrder
      ensures forall x :: x in loadOrder && x !in old(loadOrder) ==> Reaches(deps, rel, x)
      decreases |Mentioned(deps) + {path[0]}| - |path|
    {
      hide Path, AcyclicFrom, Ordered, NoRepeat, Reaches, Mentioned, Members;
      WantedIsListed(rel);
      if prefix + rel in wanted { return; }
      ghost var before := loadOrder;
      var needed := DepsOf(deps, rel);
      for i := 0 to |needed|
        invariant Valid() && before <= loadOrder
        invariant forall d :: d in needed[..i] ==> d in loadOrder
        invariant forall x :: x in loadOrder && x !in before ==> Reaches(deps, rel, x) && x != rel
      {
        ghost var d, was := needed[i], loadOrder;
        StepDown(deps, path, d);
        Add(needed[i], path + [d]);
        forall x | x in loadOrder && x !in was
          ensures Reaches(deps, rel, x) && x != rel
        {
          ReachesVia(deps, rel, d, x);
          NeverBack(deps, path, d, x);
        }
        assert needed[..i + 1] == needed[..i] + [d];
      }
      assert needed[..|needed|] == needed;
      AppendKeeps(deps, loadOrder, rel);
      ReachesSelf(deps, rel);
      wanted := wanted + {prefix + rel};
      loadOrder := loadOrder + [rel];
    }

    /** Resolve a request list: exactly what can be reached from it, in loading order. */
    method AddAll(request: seq<string>)
      requires Valid() && loadOrder == [] && forall m :: m in request ==> AcyclicFrom(deps, m)
      modifies this
      ensures Valid()
      ensures forall x :: x in loadOrder <==> exists m :: m in request && Reaches(deps, m, x)
    {
      for i := 0 to |request|
        invariant Valid()
        invariant forall m :: m in request[..i] ==> m in loadOrder
        invariant forall x :: x in loadOrder ==> exists m :: m in request && Reaches(deps, m, x)
      {
        assert Members([request[i]]) == {request[i]};
        Add(request[i], [request[i]]);
        assert request[..i + 1] == request[..i] + [request[i]];
      }
      assert request[..|request|] == request;
      forall x, m | m in request && Reaches(deps, m, x)
        ensures x in loadOrder
      {
        var p :| PathFromTo(deps, p, m, x);
        OrderedCloses(deps, loadOrder, p);
      }
    }
  }

  /** Along a path the positions in an ordered list go down. */
  lemma {:induction false} PositionsDescend(deps: Deps, order: seq<string>, p: seq<string>, i: nat, j: nat,
      a: nat, b: nat)
    requires NoRepeat(order) && Ordered(deps, order) && Path(deps, p) && i < j < |p|
    requires a < |order| && order[a] == p[i] && b < |order| && order[b] == p[j]
    ensures b < a
    decreases j - i
  {
    assert p[i + 1] in DepsOf(deps, p[i]);
    var c :| 0 <= c < a && order[c] == p[i + 1];
    if i + 1 < j {
      PositionsDescend(deps, order, p, i + 1, j, c, b);
    } else {
      assert b == c;
    }
  }

  /** Acyclicity is no more than is needed: any list without duplicates that has `m` and
      every module after its dependencies shows that no cycle is reachable from `m`. */
  lemma OrderNeedsAcyclic(deps: Deps, order: seq<string>, m: string)
    requires NoRepeat(order) && Ordered(deps, order) && m in order
    ensures AcyclicFrom(deps, m)
  {
    forall p | Path(deps, p) && |p| > 0 && p[0] == m
      ensures NoRepeat(p)
    {
      forall i, j | 0 <= i < j < |p|
        ensures p[i] != p[j]
      {
        assert Path(deps, p[..i + 1]) && Path(deps, p[..j + 1]);
        OrderedCloses(deps, order, p[..i + 1]);
        OrderedCloses(deps, order, p[..j + 1]);
        var a :| 0 <= a < |order| && order[a] == p[i];
        var b :| 0 <= b < |order| && order[b] == p[j];
        PositionsDescend(deps, order, p, i, j, a, b);
      }
    }
  }
}
