/** What bisection weighs: the tree-changing commits a commit reaches through interesting ones. */
module BisectWeights {
  import opened CommitGraph

  /** The history with the two per-commit flags that bisection only reads. */
  datatype Range = Range(ps: Parents, uninteresting: seq<bool>, treesame: seq<bool>) {
    ghost predicate Valid() {
      Dag(ps) && |uninteresting| == |ps| && |treesame| == |ps|
    }
  }

  ghost predicate InterestingPath(r: Range, path: seq<nat>, c: nat, x: nat) {
    && PathFromTo(r.ps, path, c, x)
    && forall i :: 0 <= i < |path| && path[i] < |r.uninteresting| ==> !r.uninteresting[path[i]]
  }

  ghost predicate Gets(r: Range, c: nat, x: nat) {
    exists path :: InterestingPath(r, path, c, x)
  }

  /** All commits `c` reaches through interesting commits, itself included. */
  ghost function Reach(r: Range, c: nat): set<nat> {
    set x: nat | x < |r.ps| && Gets(r, c, x)
  }

  ghost function Changing(r: Range, s: set<nat>): set<nat> {
    set x | x in s && x < |r.treesame| && !r.treesame[x]
  }

  /** The number of tree-changing commits among those `c` reaches. */
  ghost function Weight(r: Range, c: nat): nat {
    |Changing(r, Reach(r, c))|
  }

  /** How far a weight is from the nearer end. */
  function Distance(w: int, nr: int): int {
    if nr - w < w then nr - w else w
  }

  /** Nothing beats a weight within one half of the middle. */
  lemma HalfwayIsBest(w: int, nr: int, x: int)
    requires -1 <= 2 * w - nr <= 1
    ensures Distance(x, nr) <= Distance(w, nr)
  {
  }

  lemma GetsSelf(r: Range, c: nat)
    requires r.Valid() && c < |r.ps| && !r.uninteresting[c]
    ensures Gets(r, c, c)
  {
    assert InterestingPath(r, [c], c, c);
  }

  lemma GetsIsReach(r: Range, c: nat, x: nat)
    ensures Gets(r, c, x) ==> Reaches(r.ps, c, x)
  {
  }

  lemma GetsParent(r: Range, c: nat, x: nat, p: nat)
    requires r.Valid() && x < |r.ps| && p in r.ps[x] && Gets(r, c, x) && p < |r.ps| && !r.uninteresting[p]
    ensures Gets(r, c, p)
  {
    var path: seq<nat> :| InterestingPath(r, path, c, x);
    assert InterestingPath(r, path + [p], c, p);
  }

  lemma GetsTrans(r: Range, a: nat, b: nat, c: nat)
    requires r.Valid() && Gets(r, a, b) && Gets(r, b, c)
    ensures Gets(r, a, c)
  {
    var p: seq<nat> :| InterestingPath(r, p, a, b);
    var q: seq<nat> :| InterestingPath(r, q, b, c);
    var path := p + q[1..];
    forall i | 0 < i < |path|
      ensures path[i] in r.ps[path[i - 1]]
    {
      if i >= |p| {
        assert path[i] == q[i - |p| + 1] && path[i - 1] == q[i - |p|];
      }
    }
    assert InterestingPath(r, path, a, c);
  }

  lemma ParentGets(r: Range, c: nat, q: nat, x: nat)
    requires r.Valid() && c < |r.ps| && !r.uninteresting[c] && q in r.ps[c] && Gets(r, q, x)
    ensures Gets(r, c, x)
  {
    var path: seq<nat> :| InterestingPath(r, path, q, x);
    var longer := [c] + path;
    assert forall i :: 0 < i < |longer| ==> longer[i] == path[i - 1];
    assert InterestingPath(r, longer, c, x);
  }

  /** Beyond `c` itself, whatever `c` gets to it gets to through an interesting parent. */
  lemma GetsThroughParent(r: Range, c: nat, x: nat) returns (q: nat)
    requires r.Valid() && Gets(r, c, x) && x != c
    ensures c < |r.ps| && q in r.ps[c] && q < |r.ps| && !r.uninteresting[q] && Gets(r, q, x)
  {
    var path: seq<nat> :| InterestingPath(r, path, c, x);
    q := path[1];
    assert InterestingPath(r, path[1..], q, x);
  }

  /** A set that contains `c` and the interesting parents of its members contains all of `Reach(c)`. */
  lemma {:induction false} ClosedContains(r: Range, s: set<nat>, c: nat, path: seq<nat>, x: nat)
    requires r.Valid() && InterestingPath(r, path, c, x) && c in s
    requires forall y, p :: y in s && y < |r.ps| && p in r.ps[y] && p < |r.ps| && !r.uninteresting[p] ==> p in s
    ensures x in s
    decreases |path|
  {
    if |path| > 1 {
      assert path[1] in r.ps[path[0]];
      ClosedContains(r, s, path[1], path[1..], x);
    }
  }

  lemma ClosedIsReach(r: Range, s: set<nat>, c: nat)
    requires r.Valid() && c in s && (forall y :: y in s ==> y < |r.ps| && Gets(r, c, y))
    requires forall y, p :: y in s && y < |r.ps| && p in r.ps[y] && p < |r.ps| && !r.uninteresting[p] ==> p in s
    ensures s == Reach(r, c)
  {
    forall x | x in Reach(r, c)
      ensures x in s
    {
      var path :| InterestingPath(r, path, c, x);
      ClosedContains(r, s, c, path, x);
    }
  }

  // ---------------------------------------------------------------- weights along a single strand

  function InterestingParents(r: Range, parents: seq<nat>): nat
    requires Known(r.ps, parents) && |r.uninteresting| == |r.ps|
  {
    if parents == [] then 0
    else
      InterestingParents(r, parents[..|parents| - 1])
      + if r.uninteresting[parents[|parents| - 1]] then 0 else 1
  }

  lemma {:induction false} NoInterestingParent(r: Range, parents: seq<nat>, i: nat)
    requires Known(r.ps, parents) && |r.uninteresting| == |r.ps| && i < |parents|
    ensures !r.uninteresting[parents[i]] ==> InterestingParents(r, parents) >= 1
  {
    if i < |parents| - 1 {
      NoInterestingParent(r, parents[..|parents| - 1], i);
    }
  }

  lemma {:induction false} OneInterestingParent(r: Range, parents: seq<nat>, i: nat, j: nat)
    requires Known(r.ps, parents) && |r.uninteresting| == |r.ps| && i < j < |parents|
    requires !r.uninteresting[parents[i]] && !r.uninteresting[parents[j]]
    ensures InterestingParents(r, parents) >= 2
  {
    var init := parents[..|parents| - 1];
    if j < |parents| - 1 {
      OneInterestingParent(r, init, i, j);
    } else {
      NoInterestingParent(r, init, i);
    }
  }

  lemma {:induction false} HasInterestingParent(r: Range, parents: seq<nat>) returns (i: nat)
    requires Known(r.ps, parents) && |r.uninteresting| == |r.ps| && InterestingParents(r, parents) > 0
    ensures i < |parents| && !r.uninteresting[parents[i]]
  {
    var last := |parents| - 1;
    if r.uninteresting[parents[last]] {
      i := HasInterestingParent(r, parents[..last]);
    } else {
      i := last;
    }
  }

  /** A commit without interesting parents reaches only itself. */
  lemma RootWeight(r: Range, c: nat)
    requires r.Valid() && c < |r.ps| && !r.uninteresting[c] && Known(r.ps, r.ps[c])
    requires InterestingParents(r, r.ps[c]) == 0
    ensures Weight(r, c) == if r.treesame[c] then 0 else 1
  {
    GetsSelf(r, c);
    forall x | x in Reach(r, c)
      ensures x == c
    {
      if x != c {
        var q := GetsThroughParent(r, c, x);
        var i :| 0 <= i < |r.ps[c]| && r.ps[c][i] == q;
        NoInterestingParent(r, r.ps[c], i);
      }
    }
    assert Reach(r, c) == {c};
    assert Changing(r, {c}) == if r.treesame[c] then {} else {c};
  }

  /** With a single interesting parent `q`, the weight is the parent's plus the commit's own. */
  lemma StrandWeight(r: Range, c: nat, q: nat)
    requires r.Valid() && c < |r.ps| && !r.uninteresting[c] && Known(r.ps, r.ps[c])
    requires InterestingParents(r, r.ps[c]) == 1 && q in r.ps[c] && !r.uninteresting[q]
    ensures Weight(r, c) == Weight(r, q) + if r.treesame[c] then 0 else 1
  {
    GetsSelf(r, c);
    forall x: nat | x < |r.ps|
      ensures Gets(r, c, x) <==> x == c || Gets(r, q, x)
    {
      if Gets(r, q, x) { ParentGets(r, c, q, x); }
      if Gets(r, c, x) && x != c {
        var q' := GetsThroughParent(r, c, x);
        SameParent(r, r.ps[c], q, q');
      }
    }
    GetsIsReach(r, q, c);
    ParentIsProper(r.ps, c, q);
    assert Reach(r, c) == {c} + Reach(r, q);
    assert Changing(r, Reach(r, c)) == Changing(r, Reach(r, q)) + if r.treesame[c] then {} else {c};
  }

  lemma SameParent(r: Range, parents: seq<nat>, q: nat, q': nat)
    requires Known(r.ps, parents) && |r.uninteresting| == |r.ps| && InterestingParents(r, parents) == 1
    requires q in parents && q' in parents && !r.uninteresting[q] && !r.uninteresting[q']
    ensures q == q'
  {
    var i :| 0 <= i < |parents| && parents[i] == q;
    var j :| 0 <= j < |parents| && parents[j] == q';
    if i < j { OneInterestingParent(r, parents, i, j); }
    if j < i { OneInterestingParent(r, parents, j, i); }
  }

  // ---------------------------------------------------------------- the list being bisected

  ghost predicate Closed(r: Range, list: seq<nat>)
    requires r.Valid() && Known(r.ps, list)
  {
    forall c, p :: c in list && p in r.ps[c] && p < |r.ps| && !r.uninteresting[p] ==> p in list
  }

  ghost function Elements(list: seq<nat>): set<nat> {
    set c | c in list
  }

  /** Reaching stays inside a closed list. */
  lemma ReachInside(r: Range, list: seq<nat>, c: nat)
    requires r.Valid() && Known(r.ps, list) && Closed(r, list) && c in list
    ensures Reach(r, c) <= Elements(list)
  {
    forall x | x in Reach(r, c)
      ensures x in Elements(list)
    {
      var path :| InterestingPath(r, path, c, x);
      ClosedContains(r, Elements(list), c, path, x);
    }
  }

  /** Some unknown commit always has a known interesting parent: descend until one is found. */
  lemma {:induction false} SomeParentKnown(r: Range, list: seq<nat>, rank: seq<nat>, weight: seq<int>, c: nat)
    requires r.Valid() && Known(r.ps, list) && Closed(r, list) && |weight| == |r.ps| && Ranks(r.ps, rank)
    requires c in list && weight[c] < 0
    requires forall x :: x in list && weight[x] < 0 ==> InterestingParents(r, r.ps[x]) > 0
    requires forall x, q :: x in list && weight[x] < 0 && q in r.ps[x] && q < |r.ps| && !r.uninteresting[q] ==>
      weight[q] < 0
    ensures false
    decreases rank[c]
  {
    var i := HasInterestingParent(r, r.ps[c]);
    var q := r.ps[c][i];
    assert q in r.ps[c];
    SomeParentKnown(r, list, rank, weight, q);
  }

  lemma {:induction false} SubsetCard<T>(a: set<T>, b: set<T>)
    requires a <= b
    ensures |a| <= |b| && (|a| == |b| ==> a == b)
  {
    if a != {} {
      var x :| x in a;
      SubsetCard(a - {x}, b - {x});
    }
  }
}
