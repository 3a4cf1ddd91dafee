/** sort.Slice by descending string length. The order among equal lengths is left open, as
    the library leaves it, so whatever is proved of the result holds for every tie order. */
module Sorting {

  ghost predicate LongestFirst(xs: seq<string>) {
    forall i, j :: 0 <= i < j < |xs| ==> |xs[i]| >= |xs[j]|
  }

  lemma InsertOrdered(ys: seq<string>, x: string, p: nat, zs: seq<string>)
    requires LongestFirst(ys) && p <= |ys| && zs == ys[..p] + [x] + ys[p..]
    requires forall j :: 0 <= j < p ==> |ys[j]| >= |x|
    requires p < |ys| ==> |ys[p]| < |x|
    ensures LongestFirst(zs)
  {
    forall i, j | 0 <= i < j < |zs|
      ensures |zs[i]| >= |zs[j]|
    {
      var a, b := if i <= p then i else i - 1, if j <= p then j else j - 1;
      assert i != p ==> zs[i] == ys[a];
      assert j != p ==> zs[j] == ys[b];
      if i == p {
        assert zs[i] == x && |ys[p]| >= |ys[b]|;
      } else if j == p {
        assert zs[j] == x;
      }
    }
  }

  lemma InsertKeeps(ys: seq<string>, x: string, p: nat)
    requires LongestFirst(ys) && p <= |ys|
    requires forall j :: 0 <= j < p ==> |ys[j]| >= |x|
    requires p < |ys| ==> |ys[p]| < |x|
    ensures LongestFirst(ys[..p] + [x] + ys[p..])
    ensures multiset(ys[..p] + [x] + ys[p..]) == multiset(ys) + multiset{x}
  {
    hide LongestFirst;
    InsertOrdered(ys, x, p, ys[..p] + [x] + ys[p..]);
    assert ys == ys[..p] + ys[p..];
  }

  method SortLongestFirst(xs: seq<string>) returns (ys: seq<string>)
    ensures multiset(ys) == multiset(xs) && LongestFirst(ys)
  {
    ys := [];
    for i := 0 to |xs|
      invariant multiset(ys) == multiset(xs[..i]) && LongestFirst(ys)
    {
      var p := 0;
      while p < |ys| && |ys[p]| >= |xs[i]|
        invariant p <= |ys| && forall j :: 0 <= j < p ==> |ys[j]| >= |xs[i]|
      {
        p := p + 1;
      }
      assert xs[..i + 1] == xs[..i] + [xs[i]];
      InsertKeeps(ys, xs[i], p);
      ys := ys[..p] + [xs[i]] + ys[p..];
    }
    assert xs[..|xs|] == xs;
  }

  lemma SameMembers(xs: seq<string>, ys: seq<string>)
    requires multiset(xs) == multiset(ys)
    ensures |xs| == |ys| && forall x :: x in xs <==> x in ys
  {
    assert |multiset(xs)| == |xs| && |multiset(ys)| == |ys|;
    forall x
      ensures x in xs <==> x in ys
    {
      assert x in xs <==> x in multiset(xs);
      assert x in ys <==> x in multiset(ys);
    }
  }
}
