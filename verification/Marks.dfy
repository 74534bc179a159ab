/** What clearing marks from a tip does to the flag words (commit.c:442-470). */
module Marks {
  import opened CommitGraph
  import opened Painting

  /** A path from `c` to `x` along which every commit carries one of the bits of `mark`. */
  ghost predicate MarkedPath(ps: Parents, f: seq<Flags>, mark: Flags, c: nat, x: nat) {
    exists path :: PathFromTo(ps, path, c, x) && AllMarked(f, mark, path)
  }

  ghost predicate AllMarked(f: seq<Flags>, mark: Flags, path: seq<nat>) {
    forall i :: 0 <= i < |path| ==> path[i] < |f| && f[path[i]].Touches(mark)
  }

  /** `f` with `mark` removed from every commit that `c` reaches through marked commits. */
  ghost function Cleared(ps: Parents, f: seq<Flags>, mark: Flags, c: nat): (r: seq<Flags>)
    ensures |r| == |f|
  {
    seq(|f|, x requires 0 <= x < |f| => if MarkedPath(ps, f, mark, c, x) then f[x].Without(mark) else f[x])
  }

  lemma MarkedExtends(ps: Parents, f: seq<Flags>, mark: Flags, tip: nat, c: nat, p: nat)
    requires WellFormed(ps) && |f| == |ps| && c < |f| && p in ps[c]
    requires MarkedPath(ps, f, mark, tip, c) && p < |f| && f[p].Touches(mark)
    ensures MarkedPath(ps, f, mark, tip, p)
  {
    var path: seq<nat> :| PathFromTo(ps, path, tip, c) && AllMarked(f, mark, path);
    assert PathFromTo(ps, path + [p], tip, p) && AllMarked(f, mark, path + [p]);
  }

  /** Marks cleared from each tip in turn. */
  ghost function ClearedFrom(ps: Parents, f: seq<Flags>, mark: Flags, tips: seq<nat>): (r: seq<Flags>)
    ensures |r| == |f|
    decreases |tips|
  {
    if tips == [] then f else ClearedFrom(ps, Cleared(ps, f, mark, tips[0]), mark, tips[1..])
  }

  lemma {:induction false} ClearedFromAppend(ps: Parents, f: seq<Flags>, mark: Flags, tips: seq<nat>, t: nat)
    ensures ClearedFrom(ps, f, mark, tips + [t]) == Cleared(ps, ClearedFrom(ps, f, mark, tips), mark, t)
    decreases |tips|
  {
    if tips == [] {
      assert ClearedFrom(ps, f, mark, [t]) == ClearedFrom(ps, Cleared(ps, f, mark, t), mark, [t][1..]);
    } else {
      assert (tips + [t])[1..] == tips[1..] + [t];
      ClearedFromAppend(ps, Cleared(ps, f, mark, tips[0]), mark, tips[1..], t);
    }
  }

  // ---------------------------------------------------------------- the clearing walk

  /** `f` is `f0` part-way through clearing from `tip`; `todo` holds the commits still to look at. */
  ghost predicate Clearing(ps: Parents, f0: seq<Flags>, f: seq<Flags>, mark: Flags, tip: nat, todo: seq<nat>) {
    && |f0| == |f| == |ps|
    && (forall x :: 0 <= x < |f| ==>
      f[x] == f0[x] || (f[x] == f0[x].Without(mark) && MarkedPath(ps, f0, mark, tip, x)))
    && (forall x :: x in todo ==> x < |f| && (f0[x].Touches(mark) ==> MarkedPath(ps, f0, mark, tip, x)))
    && tip < |f| && (tip in todo || !f[tip].Touches(mark))
    && (forall x, p :: 0 <= x < |f| && f0[x].Touches(mark) && !f[x].Touches(mark) && p in ps[x] ==>
      p in todo || (p < |f| && !f[p].Touches(mark)))
  }

  lemma ClearingStarts(ps: Parents, f: seq<Flags>, mark: Flags, tip: nat)
    requires |f| == |ps| && tip < |f|
    ensures Clearing(ps, f, f, mark, tip, [tip])
  {
    if f[tip].Touches(mark) {
      assert PathFromTo(ps, [tip], tip, tip) && AllMarked(f, mark, [tip]);
    }
  }

  lemma ClearingSkips(ps: Parents, f0: seq<Flags>, f: seq<Flags>, mark: Flags, tip: nat, c: nat, rest: seq<nat>)
    requires Clearing(ps, f0, f, mark, tip, [c] + rest) && c < |f| && !f[c].Touches(mark)
    ensures Clearing(ps, f0, f, mark, tip, rest)
  {
    assert forall x :: x in [c] + rest <==> x == c || x in rest;
  }

  lemma ClearingSteps(ps: Parents, f0: seq<Flags>, f: seq<Flags>, mark: Flags, tip: nat, c: nat, rest: seq<nat>,
                      todo: seq<nat>)
    requires WellFormed(ps) && Clearing(ps, f0, f, mark, tip, [c] + rest) && c < |f| && f[c].Touches(mark)
    requires forall x :: x in todo <==> x in rest || x in ps[c]
    ensures Clearing(ps, f0, f[c := f[c].Without(mark)], mark, tip, todo)
  {
    assert c in [c] + rest && forall x :: x in [c] + rest <==> x == c || x in rest;
    forall p | p in ps[c]
      ensures p < |f| && (f0[p].Touches(mark) ==> MarkedPath(ps, f0, mark, tip, p))
    {
      if f0[p].Touches(mark) { MarkedExtends(ps, f0, mark, tip, c, p); }
    }
    var f' := f[c := f[c].Without(mark)];
    forall x, p | 0 <= x < |f| && f0[x].Touches(mark) && !f'[x].Touches(mark) && p in ps[x]
      ensures p in todo || (p < |f| && !f'[p].Touches(mark))
    {
    }
  }

  lemma {:induction false} ClearedAlong(ps: Parents, f0: seq<Flags>, f: seq<Flags>, mark: Flags, tip: nat,
                                        path: seq<nat>)
    requires Clearing(ps, f0, f, mark, tip, [])
    requires IsPath(ps, path) && path[0] == tip && AllMarked(f0, mark, path)
    ensures !f[path[|path| - 1]].Touches(mark)
  {
    if |path| > 1 {
      var init := path[..|path| - 1];
      ClearedAlong(ps, f0, f, mark, tip, init);
      assert path[|path| - 1] in ps[init[|init| - 1]];
    }
  }

  lemma ClearingEnds(ps: Parents, f0: seq<Flags>, f: seq<Flags>, mark: Flags, tip: nat)
    requires Clearing(ps, f0, f, mark, tip, [])
    ensures f == Cleared(ps, f0, mark, tip)
  {
    forall x | 0 <= x < |f|
      ensures f[x] == Cleared(ps, f0, mark, tip)[x]
    {
      if MarkedPath(ps, f0, mark, tip, x) {
        var path: seq<nat> :| PathFromTo(ps, path, tip, x) && AllMarked(f0, mark, path);
        ClearedAlong(ps, f0, f, mark, tip, path);
        assert path[|path| - 1] == x;
      }
    }
  }

  /** Termination measure of the clearing walk. */
  ghost function Touched(f: seq<Flags>, mark: Flags): set<nat> {
    set x: nat | x < |f| && f[x].Touches(mark)
  }

  lemma ClearShrinks(f: seq<Flags>, mark: Flags, c: nat)
    requires c < |f| && f[c].Touches(mark)
    ensures Touched(f[c := f[c].Without(mark)], mark) < Touched(f, mark)
  {
    assert c in Touched(f, mark) && c !in Touched(f[c := f[c].Without(mark)], mark);
  }

  // ---------------------------------------------------------------- nothing is left behind

  /** From `f` to `g` marks only disappear, and with a commit's marks go those of its parents. */
  ghost predicate ClosedClearing(ps: Parents, f: seq<Flags>, g: seq<Flags>, mark: Flags) {
    && |f| == |g| == |ps|
    && (forall x :: 0 <= x < |g| ==> g[x] == f[x] || (f[x].Touches(mark) && g[x] == f[x].Without(mark)))
    && (forall x, p :: 0 <= x < |g| && f[x].Touches(mark) && !g[x].Touches(mark) && p in ps[x] ==>
      p < |g| && !g[p].Touches(mark))
  }

  lemma ClearedIsClosed(ps: Parents, f: seq<Flags>, mark: Flags, tip: nat)
    requires WellFormed(ps) && |f| == |ps| && tip < |f|
    ensures ClosedClearing(ps, f, Cleared(ps, f, mark, tip), mark)
    ensures !Cleared(ps, f, mark, tip)[tip].Touches(mark)
  {
    var g := Cleared(ps, f, mark, tip);
    ClearingStarts(ps, f, mark, tip);
    forall x | 0 <= x < |f| && MarkedPath(ps, f, mark, tip, x)
      ensures f[x].Touches(mark)
    {
      var path: seq<nat> :| PathFromTo(ps, path, tip, x) && AllMarked(f, mark, path);
      assert path[|path| - 1] == x;
    }
    forall x, p | 0 <= x < |g| && f[x].Touches(mark) && !g[x].Touches(mark) && p in ps[x]
      ensures p < |g| && !g[p].Touches(mark)
    {
      if f[p].Touches(mark) { MarkedExtends(ps, f, mark, tip, x, p); }
    }
  }

  lemma {:induction false} ClearedFromIsClosed(ps: Parents, f: seq<Flags>, mark: Flags, tips: seq<nat>)
    requires WellFormed(ps) && |f| == |ps| && forall t: nat :: t in tips ==> t < |f|
    ensures ClosedClearing(ps, f, ClearedFrom(ps, f, mark, tips), mark)
    ensures forall t: nat :: t in tips ==> !ClearedFrom(ps, f, mark, tips)[t].Touches(mark)
    decreases |tips|
  {
    if tips != [] {
      var f1 := Cleared(ps, f, mark, tips[0]);
      assert tips[0] in tips && forall t :: t in tips[1..] ==> t in tips;
      ClearedIsClosed(ps, f, mark, tips[0]);
      ClearedFromIsClosed(ps, f1, mark, tips[1..]);
      var g := ClearedFrom(ps, f1, mark, tips[1..]);
      forall x, p | 0 <= x < |g| && f[x].Touches(mark) && !g[x].Touches(mark) && p in ps[x]
        ensures p < |g| && !g[p].Touches(mark)
      {
        if !f1[x].Touches(mark) { assert !f1[p].Touches(mark); }
      }
    }
  }

  lemma {:induction false} RootedIsCleared(ps: Parents, tips: seq<nat>, f: seq<Flags>, g: seq<Flags>, x: nat)
    requires Dag(ps) && |f| == |ps| && Rooted(ps, tips, f) && ClosedClearing(ps, f, g, ALL_FLAGS)
    requires forall t: nat :: t in tips ==> t < |g| && !g[t].Touches(ALL_FLAGS)
    requires x < |f|
    ensures g[x] == CLEAR
    decreases ProperlyAbove(ps, x)
  {
    if g[x] != CLEAR && x !in tips {
      var d :| 0 <= d < |f| && f[d].Touches(ALL_FLAGS) && x in ps[d];
      ParentIsProper(ps, d, x);
      AboveShrinks(ps, d, x);
      RootedIsCleared(ps, tips, f, g, d);
    }
  }

  /** Clearing from every tip of a rooted marking leaves no mark on any commit. */
  lemma ClearingLeavesNothing(ps: Parents, tips: seq<nat>, f: seq<Flags>)
    requires Dag(ps) && |f| == |ps| && Rooted(ps, tips, f) && forall t: nat :: t in tips ==> t < |f|
    ensures forall x :: 0 <= x < |f| ==> ClearedFrom(ps, f, ALL_FLAGS, tips)[x] == CLEAR
  {
    ClearedFromIsClosed(ps, f, ALL_FLAGS, tips);
    forall x | 0 <= x < |f|
      ensures ClearedFrom(ps, f, ALL_FLAGS, tips)[x] == CLEAR
    {
      RootedIsCleared(ps, tips, f, ClearedFrom(ps, f, ALL_FLAGS, tips), x);
    }
  }
}
