/** The commit history: a finite acyclic parent relation over commit ids, with ancestry.

    A commit is an index into `ps`; `ps[c]` lists the parents of `c` in order.  Ancestry speaks of
    the parents alone, so nothing stated with it can depend on commit dates. */
module CommitGraph {

  type Parents = seq<seq<nat>>

  ghost predicate WellFormed(ps: Parents) {
    forall c, i :: 0 <= c < |ps| && 0 <= i < |ps[c]| ==> ps[c][i] < |ps|
  }

  /** `rank` strictly decreases from a commit to each of its parents. */
  ghost predicate Ranks(ps: Parents, rank: seq<nat>) {
    && |rank| == |ps|
    && forall c, p :: 0 <= c < |ps| && p in ps[c] ==> p < |ps| && rank[p] < rank[c]
  }

  /** Commit histories are acyclic: a commit names its parents by hash. */
  ghost predicate Dag(ps: Parents) {
    WellFormed(ps) && exists rank :: Ranks(ps, rank)
  }

  /** A walk from a commit towards its ancestors. */
  ghost predicate IsPath(ps: Parents, path: seq<nat>) {
    && path != []
    && (forall i :: 0 <= i < |path| ==> path[i] < |ps|)
    && forall i :: 0 < i < |path| ==> path[i] in ps[path[i - 1]]
  }

  ghost predicate PathFromTo(ps: Parents, path: seq<nat>, d: nat, a: nat) {
    IsPath(ps, path) && path[0] == d && path[|path| - 1] == a
  }

  /** `a` is `d` or an ancestor of `d`. */
  ghost predicate Reaches(ps: Parents, d: nat, a: nat) {
    exists path :: PathFromTo(ps, path, d, a)
  }

  lemma ReachesSelf(ps: Parents, c: nat)
    requires c < |ps|
    ensures Reaches(ps, c, c)
  {
    assert PathFromTo(ps, [c], c, c);
  }

  lemma ReachesParent(ps: Parents, d: nat, c: nat, p: nat)
    requires WellFormed(ps) && c < |ps| && Reaches(ps, d, c) && p in ps[c]
    ensures p < |ps| && Reaches(ps, d, p)
  {
    var path :| PathFromTo(ps, path, d, c);
    assert PathFromTo(ps, path + [p], d, p);
  }

  lemma ReachesTrans(ps: Parents, a: nat, b: nat, c: nat)
    requires Reaches(ps, a, b) && Reaches(ps, b, c)
    ensures Reaches(ps, a, c)
  {
    var p :| PathFromTo(ps, p, a, b);
    var q :| PathFromTo(ps, q, b, c);
    var r := p + q[1..];
    forall i | 0 < i < |r|
      ensures r[i] in ps[r[i - 1]]
    {
      if i >= |p| {
        assert r[i] == q[i - |p| + 1] && r[i - 1] == q[i - |p|];
      }
    }
    assert PathFromTo(ps, r, a, c);
  }

  lemma {:induction false} RankFalls(ps: Parents, rank: seq<nat>, path: seq<nat>)
    requires Ranks(ps, rank) && IsPath(ps, path)
    ensures |path| > 1 ==> rank[path[|path| - 1]] < rank[path[0]]
  {
    if |path| > 1 {
      var init := path[..|path| - 1];
      assert IsPath(ps, init);
      RankFalls(ps, rank, init);
      assert path[|path| - 1] in ps[path[|path| - 2]];
    }
  }

  lemma ReachesAntisym(ps: Parents, a: nat, b: nat)
    requires Dag(ps) && Reaches(ps, a, b) && Reaches(ps, b, a)
    ensures a == b
  {
    var rank :| Ranks(ps, rank);
    var p :| PathFromTo(ps, p, a, b);
    var q :| PathFromTo(ps, q, b, a);
    RankFalls(ps, rank, p);
    RankFalls(ps, rank, q);
  }

  /** A commit is not reachable from its own parent. */
  lemma ParentIsProper(ps: Parents, c: nat, p: nat)
    requires Dag(ps) && c < |ps| && p in ps[c]
    ensures p < |ps| && p != c && Reaches(ps, c, p) && !Reaches(ps, p, c)
  {
    var rank :| Ranks(ps, rank);
    ReachesSelf(ps, c);
    ReachesParent(ps, c, c, p);
    assert rank[p] < rank[c];
    if Reaches(ps, p, c) {
      ReachesAntisym(ps, c, p);
    }
  }

  lemma InBounds(ps: Parents, d: nat, c: nat)
    requires Reaches(ps, d, c)
    ensures d < |ps| && c < |ps|
  {
    var path :| PathFromTo(ps, path, d, c);
  }

  /** The proper descendants of `c`: what an argument climbing from `c` still has above it. */
  ghost function ProperlyAbove(ps: Parents, c: nat): set<nat> {
    set x: nat | x < |ps| && x != c && Reaches(ps, x, c)
  }

  lemma AboveShrinks(ps: Parents, d: nat, c: nat)
    requires Dag(ps) && d != c && Reaches(ps, d, c)
    ensures ProperlyAbove(ps, d) < ProperlyAbove(ps, c)
  {
    InBounds(ps, d, c);
    forall x | x in ProperlyAbove(ps, d)
      ensures x in ProperlyAbove(ps, c)
    {
      ReachesTrans(ps, x, d, c);
      if x == c { ReachesAntisym(ps, d, c); }
    }
    assert d in ProperlyAbove(ps, c) && d !in ProperlyAbove(ps, d);
  }

  ghost predicate Known(ps: Parents, list: seq<nat>) {
    forall i :: 0 <= i < |list| ==> list[i] < |ps|
  }

  predicate Distinct<T(==)>(s: seq<T>) {
    forall i, j :: 0 <= i < j < |s| ==> s[i] != s[j]
  }

  lemma {:induction false} DistinctFits(s: seq<nat>, t: seq<nat>)
    requires Distinct(s) && forall x :: x in s ==> x in t
    ensures |s| <= |t|
  {
    if s != [] {
      var x := s[|s| - 1];
      assert x in s;
      var i :| 0 <= i < |t| && t[i] == x;
      var init, t' := s[..|s| - 1], t[..i] + t[i + 1..];
      forall y | y in init
        ensures y in t'
      {
        assert y in s;
        var j :| 0 <= j < |t| && t[j] == y;
        assert y == if j < i then t'[j] else t'[j - 1];
      }
      DistinctFits(init, t');
    }
  }
}
