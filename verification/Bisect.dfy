/** Choosing the commit to test next (bisect.c:35-60, 96-180, 246-356). */
module Bisect {
  import opened Common
  import opened CommitGraph
  import opened BisectWeights

  ghost function Marked(counted: seq<bool>): set<nat> {
    set x: nat | x < |counted| && counted[x]
  }

  ghost function Unmarked(counted: seq<bool>): set<nat> {
    set x: nat | x < |counted| && !counted[x]
  }

  lemma MarkOne(counted: seq<bool>, c: nat)
    requires c < |counted| && !counted[c]
    ensures Marked(counted[c := true]) == Marked(counted) + {c}
    ensures Unmarked(counted[c := true]) == Unmarked(counted) - {c}
  {
  }

  /** From `s0` to `s`, only commits that `c` gets to were added, and an added commit's interesting
      parents are in `s` too, except for the entries `owed` of the commit `busy`. */
  ghost predicate Counting(r: Range, c: nat, s0: set<nat>, s: set<nat>, busy: nat, owed: seq<nat>)
    requires r.Valid()
  {
    && s0 <= s
    && (forall x :: x in s - s0 ==> x < |r.ps| && Gets(r, c, x))
    && (forall x, p :: x in s - s0 && x < |r.ps| && p in r.ps[x] && p < |r.ps| && !r.uninteresting[p] ==>
      p in s || (x == busy && p in owed))
  }

  lemma CountingGets(r: Range, c: nat, s0: set<nat>, s: set<nat>, busy: nat, owed: seq<nat>)
    requires r.Valid() && Counting(r, c, s0, s, busy, owed)
    ensures s0 <= s && forall x :: x in s - s0 ==> x < |r.ps| && Gets(r, c, x)
  {
  }

  lemma CountingStarts(r: Range, c: nat, s0: set<nat>)
    requires r.Valid() && c < |r.ps|
    ensures Counting(r, c, s0, s0, c, [c]) && (r.uninteresting[c] || Gets(r, c, c))
  {
    if !r.uninteresting[c] { GetsSelf(r, c); }
  }

  lemma CountingDone(r: Range, c: nat, s0: set<nat>, s: set<nat>, busy: nat)
    requires r.Valid() && Counting(r, c, s0, s, busy, [])
    ensures Counting(r, c, s0, s, c, [])
  {
  }

  lemma CountingGrows(r: Range, c: nat, s0: set<nat>, s: set<nat>, busy: nat, owed: seq<nat>)
    requires r.Valid() && Counting(r, c, s0, s, busy, owed)
    ensures s0 <= s
  {
  }

  /** An interesting, unmarked commit that `c` gets to is marked; it now owes its parents. */
  lemma CountingMarks(r: Range, c: nat, s0: set<nat>, s: set<nat>, busy: nat, commit: nat)
    requires r.Valid() && Counting(r, c, s0, s, busy, [commit])
    requires commit < |r.ps| && commit !in s && Gets(r, c, commit)
    ensures Counting(r, c, s0, s + {commit}, commit, r.ps[commit])
    ensures Changing(r, s + {commit} - s0) == Changing(r, s - s0) + if r.treesame[commit] then {} else {commit}
  {
  }

  /** A debt to a commit that is marked or uninteresting is settled. */
  lemma CountingSettles(r: Range, c: nat, s0: set<nat>, s: set<nat>, busy: nat, p: nat)
    requires r.Valid() && Counting(r, c, s0, s, busy, [p]) && p < |r.ps|
    requires r.uninteresting[p] || p in s
    ensures Counting(r, c, s0, s, busy, [])
  {
  }

  /** Counting from a parent `p` of `busy` settles the debt to `p`. */
  lemma CountingJoins(r: Range, c: nat, s0: set<nat>, s: set<nat>, busy: nat, first: nat, p: nat, rest: seq<nat>,
                      s': set<nat>)
    requires r.Valid() && Counting(r, c, s0, s, busy, [first] + [p] + rest)
    requires busy in s - s0 && busy < |r.ps| && p in r.ps[busy] && p < |r.ps|
    requires Counting(r, p, s, s', p, []) && (r.uninteresting[p] || p in s')
    ensures Counting(r, c, s0, s', busy, [first] + rest)
    ensures Changing(r, s' - s0) == Changing(r, s - s0) + Changing(r, s' - s)
    ensures |Changing(r, s' - s0)| == |Changing(r, s - s0)| + |Changing(r, s' - s)|
  {
    forall x | x in s' - s0
      ensures x < |r.ps| && Gets(r, c, x)
    {
      if x in s {
        assert x in s - s0;
      } else {
        assert x in s' - s;
        var path: seq<nat> :| InterestingPath(r, path, p, x);
        assert !r.uninteresting[path[0]];
        GetsParent(r, c, busy, p);
        GetsTrans(r, c, p, x);
      }
    }
    assert forall x :: x in [first] + [p] + rest <==> x == first || x == p || x in rest;
    assert forall x :: x in [first] + rest <==> x == first || x in rest;
  }

  /** Counting from `c` with nothing marked beforehand marks exactly what `c` reaches. */
  lemma WeighedAll(r: Range, c: nat, s: set<nat>)
    requires r.Valid() && c in s && Counting(r, c, {}, s, c, [])
    ensures s == Reach(r, c) && s - {} == s
  {
    assert forall x :: x in s <==> x in s - {};
    ClosedIsReach(r, s, c);
  }

  // ---------------------------------------------------------------- the weights array

  /** -1: one interesting parent, not weighed yet; -2: several; otherwise the true weight. */
  ghost predicate Weighed(r: Range, list: seq<nat>, w: seq<int>)
    requires r.Valid() && Known(r.ps, list)
  {
    && |w| == |r.ps|
    && forall c :: c in list && c < |r.ps| ==> WeighedAt(r, c, w[c])
  }

  ghost predicate WeighedAt(r: Range, c: nat, w: int)
    requires r.Valid() && c < |r.ps|
  {
    && w >= -2
    && (w >= 0 ==> w == Weight(r, c))
    && Known(r.ps, r.ps[c])
    && (w == -1 ==> InterestingParents(r, r.ps[c]) == 1)
    && (w == -2 ==> InterestingParents(r, r.ps[c]) >= 2)
  }

  /** The tree-changing commits of `list` whose weight is known. */
  ghost function KnownChanging(r: Range, list: seq<nat>, w: seq<int>): set<nat> {
    set c | c in list && c < |w| && c < |r.treesame| && !r.treesame[c] && w[c] >= 0
  }

  ghost function Unknown(list: seq<nat>, w: seq<int>): set<nat> {
    set c | c in list && c < |w| && w[c] < 0
  }

  lemma WeighOne(r: Range, list: seq<nat>, w: seq<int>, c: nat, x: int)
    requires r.Valid() && Known(r.ps, list) && Weighed(r, list, w) && c in list && c < |r.ps| && w[c] < 0
    requires x >= 0 && x == Weight(r, c)
    ensures Weighed(r, list, w[c := x])
    ensures Unknown(list, w[c := x]) == Unknown(list, w) - {c} && c in Unknown(list, w)
    ensures KnownChanging(r, list, w[c := x]) == KnownChanging(r, list, w) + if r.treesame[c] then {} else {c}
    ensures c !in KnownChanging(r, list, w)
  {
    hide Weight;
  }

  lemma StartOne(r: Range, list: seq<nat>, w: seq<int>, c: nat, x: int)
    requires r.Valid() && Known(r.ps, list) && Weighed(r, list, w) && c !in list && c < |r.ps|
    requires WeighedAt(r, c, x)
    ensures Known(r.ps, list + [c]) && Weighed(r, list + [c], w[c := x])
    ensures KnownChanging(r, list + [c], w[c := x])
         == KnownChanging(r, list, w) + if x >= 0 && !r.treesame[c] then {c} else {}
    ensures c !in KnownChanging(r, list, w)
  {
    hide Weight, WeighedAt;
  }

  /** All tree-changing commits are weighed once as many are counted as there are. */
  lemma AllCounted(r: Range, list: seq<nat>, w: seq<int>, counted: int)
    requires r.Valid() && Known(r.ps, list) && |w| == |r.ps|
    requires counted == |KnownChanging(r, list, w)| && counted >= |Changing(r, Elements(list))|
    ensures forall c :: c in list && c < |w| && !r.treesame[c] ==> w[c] >= 0
  {
    SubsetCard(KnownChanging(r, list, w), Changing(r, Elements(list)));
    assert forall c :: c in list && c < |w| && !r.treesame[c] ==> c in Changing(r, Elements(list));
  }

  /** `c` is a tree-changing listed commit splitting the `nr` tree-changing commits most evenly. */
  ghost predicate BestSplit(r: Range, list: seq<nat>, nr: int, c: nat)
    requires r.Valid() && Known(r.ps, list)
  {
    && c in list && !r.treesame[c]
    && forall x :: x in list && x < |r.ps| && !r.treesame[x] ==>
        Distance(Weight(r, x), nr) <= Distance(Weight(r, c), nr)
  }

  lemma InitialWeight(r: Range, c: nat)
    requires r.Valid() && c < |r.ps| && !r.uninteresting[c] && Known(r.ps, r.ps[c])
    ensures InterestingParents(r, r.ps[c]) == 0 ==> WeighedAt(r, c, if r.treesame[c] then 0 else 1)
    ensures InterestingParents(r, r.ps[c]) == 1 ==> WeighedAt(r, c, -1)
    ensures InterestingParents(r, r.ps[c]) >= 2 ==> WeighedAt(r, c, -2)
  {
    if InterestingParents(r, r.ps[c]) == 0 { RootWeight(r, c); }
  }

  lemma MergeChanges(r: Range, list: seq<nat>, w: seq<int>, c: nat, nr: int)
    requires r.Valid() && Bisectable(r, list, nr) && Weighed(r, list, w)
    requires c in list && c < |r.ps| && w[c] == -2
    ensures !r.treesame[c]
  {
    assert WeighedAt(r, c, w[c]);
  }

  lemma HalfwaySplits(r: Range, list: seq<nat>, nr: int, c: nat, w: int)
    requires r.Valid() && Known(r.ps, list) && c in list && c < |r.ps| && !r.treesame[c]
    requires w == Weight(r, c) && -1 <= 2 * w - nr <= 1
    ensures BestSplit(r, list, nr, c)
  {
    forall x | x in list && x < |r.ps| && !r.treesame[x]
      ensures Distance(Weight(r, x), nr) <= Distance(Weight(r, c), nr)
    {
      HalfwayIsBest(w, nr, Weight(r, x));
    }
  }

  lemma StrandOne(r: Range, list: seq<nat>, w: seq<int>, c: nat, q: nat, nr: int)
    requires r.Valid() && Bisectable(r, list, nr) && Weighed(r, list, w)
    requires c in list && c < |r.ps| && w[c] == -1 && q in r.ps[c] && q < |r.ps| && !r.uninteresting[q] && w[q] >= 0
    ensures w[q] + (if r.treesame[c] then 0 else 1) == Weight(r, c)
  {
    assert WeighedAt(r, c, w[c]) && q in list && WeighedAt(r, q, w[q]);
    StrandWeight(r, c, q);
  }

  /** No unknown commit among the first `i` has a known interesting parent. */
  ghost predicate Stuck(r: Range, list: seq<nat>, w: seq<int>, i: nat)
    requires r.Valid() && Known(r.ps, list) && |w| == |r.ps|
  {
    forall k, q :: 0 <= k < i && k < |list| && w[list[k]] < 0 && q in r.ps[list[k]] && q < |r.ps| && !r.uninteresting[q]
      ==> w[q] < 0
  }

  /** While some tree-changing commit is unknown, a whole pass cannot be stuck. */
  lemma PassProgresses(r: Range, list: seq<nat>, w: seq<int>, nr: int)
    requires r.Valid() && Bisectable(r, list, nr) && Weighed(r, list, w)
    requires |KnownChanging(r, list, w)| < nr
    ensures !Stuck(r, list, w, |list|)
  {
    var c := UnknownChanging(r, list, w, nr);
    if Stuck(r, list, w, |list|) {
      var rank :| Ranks(r.ps, rank);
      forall x, q | x in list && w[x] < 0 && q in r.ps[x] && q < |r.ps| && !r.uninteresting[q]
        ensures w[q] < 0
      {
        var k :| 0 <= k < |list| && list[k] == x;
      }
      assert forall x :: x in list && x < |r.ps| ==> WeighedAt(r, x, w[x]);
      SomeParentKnown(r, list, rank, w, c);
    }
  }

  lemma UnknownChanging(r: Range, list: seq<nat>, w: seq<int>, nr: int) returns (c: nat)
    requires r.Valid() && Bisectable(r, list, nr) && |w| == |r.ps| && |KnownChanging(r, list, w)| < nr
    ensures c in list && c < |r.ps| && !r.treesame[c] && w[c] < 0
  {
    var all, known := Changing(r, Elements(list)), KnownChanging(r, list, w);
    if all <= known { SubsetCard(all, known); }
    c :| c in all && c !in known;
  }

  lemma AllWeighedSplits(r: Range, list: seq<nat>, w: seq<int>, nr: int, best: nat)
    requires r.Valid() && Known(r.ps, list) && Weighed(r, list, w)
    requires forall c :: c in list && c < |w| && !r.treesame[c] ==> w[c] >= 0
    requires best in list && best < |w| && !r.treesame[best]
    requires forall c :: c in list && c < |w| && !r.treesame[c] ==> Distance(w[c], nr) <= Distance(w[best], nr)
    ensures BestSplit(r, list, nr, best) && w[best] == Weight(r, best)
  {
    forall x | x in list && x < |r.ps| && !r.treesame[x]
      ensures Distance(Weight(r, x), nr) <= Distance(Weight(r, best), nr)
    {
      assert WeighedAt(r, x, w[x]) && WeighedAt(r, best, w[best]);
    }
  }

  lemma StillOne(r: Range, list: seq<nat>, w: seq<int>, c: nat)
    requires r.Valid() && Known(r.ps, list) && Weighed(r, list, w) && c in list && c < |r.ps|
    ensures w[c] < 0 && w[c] != -2 ==> w[c] == -1
  {
    assert WeighedAt(r, c, w[c]);
  }

  lemma WeightBounded(r: Range, list: seq<nat>, w: seq<int>, c: nat, nr: int)
    requires r.Valid() && Bisectable(r, list, nr) && Weighed(r, list, w) && c in list && c < |r.ps| && w[c] >= 0
    ensures w[c] <= nr
  {
    assert WeighedAt(r, c, w[c]);
    ReachInside(r, list, c);
    SubsetCard(Changing(r, Reach(r, c)), Changing(r, Elements(list)));
  }

  lemma SomeChanging(r: Range, list: seq<nat>, nr: int)
    requires r.Valid() && Bisectable(r, list, nr) && nr > 0
    ensures exists k :: 0 <= k < |list| && !r.treesame[list[k]]
  {
    var c :| c in Changing(r, Elements(list));
  }

  lemma SplitInList(r: Range, list: seq<nat>, nr: int, c: nat)
    requires r.Valid() && Known(r.ps, list) && BestSplit(r, list, nr, c)
    ensures c in list && c < |r.ps| && list != []
  {
  }

  /** No commit without tree changes has several interesting parents. */
  ghost predicate NoTreesameMerge(r: Range, list: seq<nat>)
    requires r.Valid()
  {
    forall c :: c in list && c < |r.ps| && !r.uninteresting[c] && Known(r.ps, r.ps[c]) && r.treesame[c] ==>
      InterestingParents(r, r.ps[c]) <= 1
  }

  ghost predicate Bisectable(r: Range, list: seq<nat>, nr: int)
    requires r.Valid()
  {
    && Known(r.ps, list) && Distinct(list) && Closed(r, list)
    && (forall c :: c in list && c < |r.ps| ==> !r.uninteresting[c])
    && NoTreesameMerge(r, list)
    && nr == |Changing(r, Elements(list))|
  }

  /** The interesting commits of a revision list. */
  ghost function InterestingOnes(r: Range, list: seq<nat>): set<nat> {
    set c | c in list && c < |r.uninteresting| && !r.uninteresting[c]
  }

  lemma NothingKept(r: Range)
    ensures Changing(r, Elements([])) == {}
  {
  }

  lemma KeepOne(r: Range, kept: seq<nat>, p: nat)
    requires r.Valid() && p < |r.ps| && p !in kept
    ensures |Changing(r, Elements([p] + kept))| == |Changing(r, Elements(kept))| + if r.treesame[p] then 0 else 1
  {
    assert Elements([p] + kept) == {p} + Elements(kept);
    assert p !in Changing(r, Elements(kept));
    assert Changing(r, Elements([p] + kept)) == Changing(r, Elements(kept)) + if r.treesame[p] then {} else {p};
  }

  lemma FilteredIsBisectable(r: Range, list: seq<nat>, kept: seq<nat>, nr: int)
    requires r.Valid() && Known(r.ps, list) && Known(r.ps, kept) && Distinct(kept) && NoTreesameMerge(r, list)
    requires forall c, p ::
      c in InterestingOnes(r, list) && c < |r.ps| && p in r.ps[c] && p < |r.ps| && !r.uninteresting[p] ==> p in list
    requires forall c :: c in kept <==> c in InterestingOnes(r, list)
    requires nr == |Changing(r, Elements(kept))|
    ensures Bisectable(r, kept, nr)
  {
    forall c, p | c in kept && p in r.ps[c] && p < |r.ps| && !r.uninteresting[p]
      ensures p in kept
    {
      assert c in InterestingOnes(r, list);
    }
  }

  class Bisection {
    const r: Range
    const counted: array<bool>

    ghost predicate Valid() {
      r.Valid() && counted.Length == |r.ps|
    }

    constructor (r: Range)
      requires r.Valid()
      ensures Valid() && this.r == r && fresh(counted) && forall c :: 0 <= c < counted.Length ==> !counted[c]
    {
      this.r := r;
      counted := new bool[|r.ps|](_ => false);
    }

    /** Counts the tree-changing commits that `entry` gets to and that are not COUNTED yet, marking them. */
    method CountDistance(entry: nat) returns (nr: nat)
      requires Valid() && entry < |r.ps|
      modifies counted
      ensures Counting(r, entry, old(Marked(counted[..])), Marked(counted[..]), entry, [])
      ensures r.uninteresting[entry] || counted[entry]
      ensures nr == |Changing(r, Marked(counted[..]) - old(Marked(counted[..])))|
      ensures Unmarked(counted[..]) <= old(Unmarked(counted[..]))
      decreases Unmarked(counted[..]), 2
    {
      hide Counting, Gets;
      nr := 0;
      var cur: Option<nat> := Some(entry);
      ghost var s0 := Marked(counted[..]);
      CountingStarts(r, entry, s0);
      ghost var busy := entry;
      while cur.Some?
        invariant cur.Some? ==> cur.value < |r.ps| && (r.uninteresting[cur.value] || Gets(r, entry, cur.value))
        invariant Counting(r, entry, s0, Marked(counted[..]), busy, if cur.Some? then [cur.value] else [])
        invariant r.uninteresting[entry] || counted[entry] || cur == Some(entry)
        invariant nr == |Changing(r, Marked(counted[..]) - s0)|
        invariant Unmarked(counted[..]) <= old(Unmarked(counted[..]))
        invariant Marked(counted[..]) >= s0
        decreases Unmarked(counted[..]), cur.Some?
      {
        var commit := cur.value;
        ghost var f := counted[..];
        if r.uninteresting[commit] || counted[commit] {
          CountingSettles(r, entry, s0, Marked(f), busy, commit);
          cur := None;
        } else {
          var more;
          assert entry in Marked(f) <==> counted[entry];
          cur, more := CountCommit(commit, entry, s0, busy);
          assert entry in Marked(counted[..]) <==> counted[entry];
          busy := commit;
          nr := nr + more;
        }
      }
      CountingDone(r, entry, s0, Marked(counted[..]), busy);
    }

    /** Marks and counts one commit and whatever its parents after the first lead to. */
    method CountCommit(commit: nat, ghost entry: nat, ghost s0: set<nat>, ghost busy: nat)
      returns (first: Option<nat>, nr: nat)
      requires Valid() && commit < |r.ps| && !counted[commit] && Gets(r, entry, commit)
      requires Counting(r, entry, s0, Marked(counted[..]), busy, [commit])
      modifies counted
      ensures first.Some? ==> first.value < |r.ps| && (r.uninteresting[first.value] || Gets(r, entry, first.value))
      ensures Counting(r, entry, s0, Marked(counted[..]), commit, if first.Some? then [first.value] else [])
      ensures |Changing(r, Marked(counted[..]) - s0)| == |Changing(r, old(Marked(counted[..])) - s0)| + nr
      ensures Unmarked(counted[..]) < old(Unmarked(counted[..]))
      ensures counted[commit] && Marked(counted[..]) >= old(Marked(counted[..]))
      decreases Unmarked(counted[..]), 1
    {
      hide Counting, Gets;
      ghost var f := counted[..];
      counted[commit] := true;
      assert counted[..] == f[commit := true];
      MarkOne(f, commit);
      CountingMarks(r, entry, s0, Marked(f), busy, commit);
      assert commit in Unmarked(f) && commit !in Changing(r, Marked(f) - s0);
      CountingGrows(r, entry, s0, Marked(f), busy, [commit]);
      first, nr := CountOthers(commit, entry, s0);
      if !r.treesame[commit] {
        nr := nr + 1;
      }
      assert commit in Marked(counted[..]);
    }

    /** Counts from every parent but the first, which is handed back for the caller's loop. */
    method CountOthers(commit: nat, ghost entry: nat, ghost s0: set<nat>) returns (first: Option<nat>, nr: nat)
      requires Valid() && commit < |r.ps| && commit in Marked(counted[..]) - s0
      requires Counting(r, entry, s0, Marked(counted[..]), commit, r.ps[commit])
      modifies counted
      ensures first.Some? ==> first.value < |r.ps| && (r.uninteresting[first.value] || Gets(r, entry, first.value))
      ensures Counting(r, entry, s0, Marked(counted[..]), commit, if first.Some? then [first.value] else [])
      ensures |Changing(r, Marked(counted[..]) - s0)| == |Changing(r, old(Marked(counted[..])) - s0)| + nr
      ensures Unmarked(counted[..]) <= old(Unmarked(counted[..]))
      ensures Marked(counted[..]) >= old(Marked(counted[..]))
      decreases Unmarked(counted[..]), 3
    {
      hide Counting;
      nr := 0;
      var parents := r.ps[commit];
      CountingGets(r, entry, s0, Marked(counted[..]), commit, parents);
      if parents == [] {
        first := None;
        return;
      }
      first := Some(parents[0]);
      if !r.uninteresting[parents[0]] {
        GetsParent(r, entry, commit, parents[0]);
      }
      assert parents == [parents[0]] + parents[1..];
      for i := 1 to |parents|
        invariant Counting(r, entry, s0, Marked(counted[..]), commit, [parents[0]] + parents[i..])
        invariant |Changing(r, Marked(counted[..]) - s0)| == |Changing(r, old(Marked(counted[..])) - s0)| + nr
        invariant Unmarked(counted[..]) <= old(Unmarked(counted[..]))
        invariant Marked(counted[..]) >= old(Marked(counted[..]))
      {
        ghost var s := Marked(counted[..]);
        assert [parents[0]] + parents[i..] == [parents[0]] + [parents[i]] + parents[i + 1..];
        var more := CountDistance(parents[i]);
        CountingGrows(r, parents[i], s, Marked(counted[..]), parents[i], []);
        CountingJoins(r, entry, s0, s, commit, parents[0], parents[i], parents[i + 1..], Marked(counted[..]));
        nr := nr + more;
      }
      assert [parents[0]] + parents[|parents|..] == [parents[0]];
    }

    method ClearDistance(list: seq<nat>)
      requires Valid() && Known(r.ps, list)
      modifies counted
      ensures forall c :: 0 <= c < |r.ps| ==> counted[c] == (old(counted[c]) && c !in list)
    {
      for i := 0 to |list|
        invariant forall c :: 0 <= c < |r.ps| ==> counted[c] == (old(counted[c]) && c !in list[..i])
      {
        counted[list[i]] := false;
        assert list[..i + 1] == list[..i] + [list[i]];
      }
      assert list[..|list|] == list;
    }

    ghost predicate NoneCounted()
      reads counted
    {
      forall c :: 0 <= c < counted.Length ==> !counted[c]
    }

    /** The exact weight of one commit, by counting everything it reaches. */
    method WeighMerge(c: nat, list: seq<nat>) returns (w: nat)
      requires Valid() && Known(r.ps, list) && Closed(r, list) && c in list && !r.uninteresting[c] && NoneCounted()
      modifies counted
      ensures w == Weight(r, c) && NoneCounted()
    {
      assert Marked(counted[..]) == {};
      w := CountDistance(c);
      ghost var s := Marked(counted[..]);
      assert c in s && s - {} == s;
      WeighedAll(r, c, s);
      ReachInside(r, list, c);
      assert forall x :: 0 <= x < |r.ps| && counted[x] ==> x in s;
      ClearDistance(list);
    }

    method CountInterestingParents(c: nat) returns (count: nat)
      requires Valid() && c < |r.ps|
      ensures Known(r.ps, r.ps[c]) && count == InterestingParents(r, r.ps[c])
    {
      var parents := r.ps[c];
      count := 0;
      for i := 0 to |parents|
        invariant Known(r.ps, parents[..i]) && count == InterestingParents(r, parents[..i])
      {
        assert parents[..i + 1][..i] == parents[..i];
        if !r.uninteresting[parents[i]] {
          count := count + 1;
        }
      }
      assert parents[..|parents|] == parents;
    }

    method InitOne(c: nat, weights: array<int>) returns (one: nat)
      requires Valid() && c < |r.ps| && !r.uninteresting[c] && weights.Length == |r.ps| && weights[c] == 0
      modifies weights
      ensures weights[..] == old(weights[..])[c := weights[c]]
      ensures WeighedAt(r, c, weights[c])
      ensures one == if weights[c] >= 0 && !r.treesame[c] then 1 else 0
    {
      hide WeighedAt, InterestingParents;
      one := 0;
      var k := CountInterestingParents(c);
      InitialWeight(r, c);
      if k == 0 {
        if !r.treesame[c] {
          weights[c] := 1;
          one := 1;
        }
      } else if k == 1 {
        weights[c] := -1;
      } else {
        weights[c] := -2;
      }
    }

    method InitWeights(list: seq<nat>, weights: array<int>, ghost nr: int) returns (count: nat)
      requires Valid() && Bisectable(r, list, nr) && weights.Length == |r.ps| && weights as object != counted
      requires forall c :: 0 <= c < weights.Length ==> weights[c] == 0
      modifies weights
      ensures Weighed(r, list, weights[..]) && count == |KnownChanging(r, list, weights[..])|
    {
      hide Weight, WeighedAt, InterestingParents, Closed;
      count := 0;
      for n := 0 to |list|
        invariant Known(r.ps, list[..n]) && Weighed(r, list[..n], weights[..])
        invariant count == |KnownChanging(r, list[..n], weights[..])|
        invariant forall c :: 0 <= c < weights.Length && c !in list[..n] ==> weights[c] == 0
      {
        var c := list[n];
        assert list[..n + 1] == list[..n] + [c];
        ghost var w := weights[..];
        var one := InitOne(c, weights);
        count := count + one;
        assert weights[..] == w[c := weights[c]];
        StartOne(r, list[..n], w, c, weights[c]);
      }
      assert list[..|list|] == list;
    }

    /** Is the weight within one half of the middle, for a commit we may return? */
    method Halfway(c: nat, w: int, nr: int) returns (b: bool)
      requires Valid() && c < |r.ps|
      ensures b <==> !r.treesame[c] && -1 <= 2 * w - nr <= 1
    {
      if r.treesame[c] {
        return false;
      }
      return 2 * w - nr == -1 || 2 * w - nr == 0 || 2 * w - nr == 1;
    }

    method WeighMerges(list: seq<nat>, weights: array<int>, nr: int, count: nat) returns (best: Option<nat>, more: nat)
      requires Valid() && Bisectable(r, list, nr) && weights.Length == |r.ps| && weights as object != counted
      requires NoneCounted() && Weighed(r, list, weights[..]) && count == |KnownChanging(r, list, weights[..])|
      modifies counted, weights
      ensures NoneCounted() && Weighed(r, list, weights[..]) && more == |KnownChanging(r, list, weights[..])|
      ensures best.Some? ==> BestSplit(r, list, nr, best.value) && weights[best.value] == Weight(r, best.value)
      ensures best.None? ==> forall c :: c in list && c < |r.ps| ==> weights[c] != -2
    {
      hide Weight, WeighedAt, BestSplit;
      more := count;
      for i := 0 to |list|
        invariant NoneCounted() && Weighed(r, list, weights[..])
        invariant more == |KnownChanging(r, list, weights[..])|
        invariant forall k :: 0 <= k < i ==> weights[list[k]] != -2
      {
        var c := list[i];
        if !r.uninteresting[c] && weights[c] == -2 {
          ghost var w := weights[..];
          MergeChanges(r, list, w, c, nr);
          weights[c] := WeighMerge(c, list);
          assert weights[..] == w[c := weights[c]];
          WeighOne(r, list, w, c, weights[c]);
          more := more + 1;
          var half := Halfway(c, weights[c], nr);
          if half {
            HalfwaySplits(r, list, nr, c, weights[c]);
            return Some(c), more;
          }
        }
      }
      return None, more;
    }

    /** The first interesting parent whose weight is known. */
    method KnownParent(c: nat, weights: array<int>) returns (q: Option<nat>)
      requires Valid() && c < |r.ps| && weights.Length == |r.ps|
      ensures q.Some? ==> q.value in r.ps[c] && q.value < |r.ps| && !r.uninteresting[q.value] && weights[q.value] >= 0
      ensures q.None? ==> forall x :: x in r.ps[c] && x < |r.ps| && !r.uninteresting[x] ==> weights[x] < 0
    {
      var parents := r.ps[c];
      for i := 0 to |parents|
        invariant forall k :: 0 <= k < i && !r.uninteresting[parents[k]] ==> weights[parents[k]] < 0
      {
        if !r.uninteresting[parents[i]] && 0 <= weights[parents[i]] {
          return Some(parents[i]);
        }
      }
      return None;
    }

    /** Weighs one unknown strand commit if its interesting parent is known. */
    method FillOne(c: nat, list: seq<nat>, weights: array<int>, nr: int, count: nat)
      returns (filled: bool, best: Option<nat>, more: nat)
      requires Valid() && Bisectable(r, list, nr) && weights.Length == |r.ps|
      requires Weighed(r, list, weights[..]) && count == |KnownChanging(r, list, weights[..])|
      requires c in list && c < |r.ps| && weights[c] < 0 && weights[c] != -2
      modifies weights
      ensures Weighed(r, list, weights[..]) && more == |KnownChanging(r, list, weights[..])|
      ensures best.Some? ==> BestSplit(r, list, nr, best.value) && weights[best.value] == Weight(r, best.value)
      ensures forall x :: 0 <= x < |r.ps| && x != c ==> weights[x] == old(weights[x])
      ensures filled ==> weights[c] >= 0 && Unknown(list, weights[..]) < old(Unknown(list, weights[..]))
      ensures !filled ==> weights[..] == old(weights[..])
      ensures !filled ==> forall x :: x in r.ps[c] && x < |r.ps| && !r.uninteresting[x] ==> weights[x] < 0
    {
      hide Weight, WeighedAt, BestSplit, Closed, InterestingParents;
      var q := KnownParent(c, weights);
      if q.None? {
        return false, None, count;
      }
      more := count;
      ghost var w := weights[..];
      StillOne(r, list, w, c);
      StrandOne(r, list, w, c, q.value, nr);
      if !r.treesame[c] {
        weights[c] := weights[q.value] + 1;
        more := more + 1;
      } else {
        weights[c] := weights[q.value];
      }
      assert weights[..] == w[c := weights[c]];
      WeighOne(r, list, w, c, weights[c]);
      var half := Halfway(c, weights[c], nr);
      if half {
        HalfwaySplits(r, list, nr, c, weights[c]);
        return true, Some(c), more;
      }
      return true, None, more;
    }

    /** One pass over the list, weighing single strands whose parent is known. */
    method FillPass(list: seq<nat>, weights: array<int>, nr: int, count: nat) returns (best: Option<nat>, more: nat)
      requires Valid() && Bisectable(r, list, nr) && weights.Length == |r.ps|
      requires Weighed(r, list, weights[..]) && count == |KnownChanging(r, list, weights[..])|
      requires forall c :: c in list && c < |r.ps| ==> weights[c] != -2
      modifies weights
      ensures Weighed(r, list, weights[..]) && more == |KnownChanging(r, list, weights[..])|
      ensures best.Some? ==> BestSplit(r, list, nr, best.value) && weights[best.value] == Weight(r, best.value)
      ensures best.None? ==> forall c :: c in list && c < |r.ps| ==> weights[c] != -2
      ensures best.None? ==>
        Unknown(list, weights[..]) < old(Unknown(list, weights[..]))
        || (weights[..] == old(weights[..]) && Stuck(r, list, weights[..], |list|))
    {
      hide Weight, Weighed, BestSplit, Closed, InterestingParents, KnownChanging, Unknown;
      more := count;
      for i := 0 to |list|
        invariant Weighed(r, list, weights[..]) && more == |KnownChanging(r, list, weights[..])|
        invariant forall c :: c in list && c < |r.ps| ==> weights[c] != -2
        invariant Unknown(list, weights[..]) < old(Unknown(list, weights[..]))
          || (weights[..] == old(weights[..]) && Stuck(r, list, weights[..], i))
      {
        var c := list[i];
        if 0 <= weights[c] {
          continue;
        }
        var filled;
        filled, best, more := FillOne(c, list, weights, nr, more);
        if best.Some? {
          return;
        }
      }
      return None, more;
    }

    /** `best` stands at `at`, and before it the list has only commits with a smaller distance. */
    ghost predicate FirstOfBest(list: seq<nat>, weights: seq<int>, nr: int, best: nat, at: nat)
      requires Known(r.ps, list) && |weights| == |r.ps| == |r.treesame| && best < |r.ps|
    {
      && at < |list| && list[at] == best
      && forall k :: 0 <= k < at && !r.treesame[list[k]] ==>
        Distance(weights[list[k]], nr) < Distance(weights[best], nr)
    }

    /** The first commit with the largest distance from the nearer end; the list head if none changes the tree. */
    method BestBisection(list: seq<nat>, weights: array<int>, nr: int) returns (best: nat)
      requires Valid() && Bisectable(r, list, nr) && weights.Length == |r.ps| && list != []
      requires Weighed(r, list, weights[..])
      requires forall c :: c in list && c < |r.ps| && !r.treesame[c] ==> weights[c] >= 0
      ensures best in list && best < |r.ps|
      ensures nr > 0 ==> BestSplit(r, list, nr, best) && weights[best] == Weight(r, best)
      ensures nr > 0 ==> exists at :: FirstOfBest(list, weights[..], nr, best, at)
    {
      hide Weight, WeighedAt, BestSplit, Closed;
      best := list[0];
      ghost var at := 0;
      var bestDistance := -1;
      for i := 0 to |list|
        invariant best in list && best < |r.ps| && bestDistance >= -1
        invariant bestDistance >= 0 ==> !r.treesame[best] && bestDistance == Distance(weights[best], nr)
        invariant bestDistance >= 0 ==> FirstOfBest(list, weights[..], nr, best, at)
        invariant forall k :: 0 <= k < i && !r.treesame[list[k]] ==> Distance(weights[list[k]], nr) <= bestDistance
      {
        var p := list[i];
        if !r.treesame[p] {
          WeightBounded(r, list, weights[..], p, nr);
          var distance := weights[p];
          if nr - distance < distance {
            distance := nr - distance;
          }
          if distance > bestDistance {
            best, bestDistance, at := p, distance, i;
          }
        }
      }
      if nr > 0 {
        SomeChanging(r, list, nr);
        var k :| 0 <= k < |list| && !r.treesame[list[k]];
        WeightBounded(r, list, weights[..], list[k], nr);
        forall c | c in list && c < |r.ps| && !r.treesame[c]
          ensures Distance(weights[c], nr) <= bestDistance
        {
          var k' :| 0 <= k' < |list| && list[k'] == c;
        }
        AllWeighedSplits(r, list, weights[..], nr, best);
      }
    }

    /** The tree-changing commit of the list whose weight splits the range most evenly. */
    method DoFindBisection(list: seq<nat>, nr: nat, weights: array<int>) returns (best: Option<nat>)
      requires Valid() && Bisectable(r, list, nr) && weights.Length == |r.ps| && weights as object != counted
      requires NoneCounted() && forall c :: 0 <= c < weights.Length ==> weights[c] == 0
      modifies counted, weights
      ensures best.None? <==> list == []
      ensures best.Some? ==> best.value in list && best.value < |r.ps|
      ensures best.Some? && nr > 0 ==>
        BestSplit(r, list, nr, best.value) && weights[best.value] == Weight(r, best.value)
      ensures NoneCounted() && Weighed(r, list, weights[..])
    {
      hide Weight, Weighed, Stuck, Closed;
      var count := InitWeights(list, weights, nr);
      best, count := WeighMerges(list, weights, nr, count);
      if best.Some? {
        SplitInList(r, list, nr, best.value);
        return;
      }
      while count < nr
        invariant NoneCounted() && Weighed(r, list, weights[..]) && count == |KnownChanging(r, list, weights[..])|
        invariant forall c :: c in list && c < |r.ps| ==> weights[c] != -2
        decreases Unknown(list, weights[..])
      {
        PassProgresses(r, list, weights[..], nr);
        best, count := FillPass(list, weights, nr, count);
        if best.Some? {
          SplitInList(r, list, nr, best.value);
          return;
        }
      }
      AllCounted(r, list, weights[..], count);
      if list == [] {
        return None;
      }
      var b := BestBisection(list, weights, nr);
      best := Some(b);
    }

    /** Drops uninteresting commits, reversing the list and counting the tree-changing ones. */
    method KeepInteresting(list: seq<nat>) returns (kept: seq<nat>, nr: nat)
      requires Valid() && Known(r.ps, list) && Distinct(list)
      ensures Known(r.ps, kept) && Distinct(kept) && nr == |Changing(r, Elements(kept))|
      ensures forall c :: c in kept <==> c in InterestingOnes(r, list)
    {
      hide Changing;
      kept, nr := [], 0;
      NothingKept(r);
      for i := 0 to |list|
        invariant Known(r.ps, kept) && Distinct(kept) && nr == |Changing(r, Elements(kept))|
        invariant forall c :: c in kept <==> c in InterestingOnes(r, list[..i])
      {
        var p := list[i];
        assert list[..i + 1] == list[..i] + [p];
        if !r.uninteresting[p] {
          KeepOne(r, kept, p);
          kept := [p] + kept;
          if !r.treesame[p] {
            nr := nr + 1;
          }
        }
      }
      assert list[..|list|] == list;
    }

    /** The commit to test next, with its weight and the number of tree-changing commits in the range. */
    method FindBisection(list: seq<nat>) returns (best: Option<nat>, reaches: int, all: nat)
      requires Valid() && Known(r.ps, list) && Distinct(list) && NoneCounted() && NoTreesameMerge(r, list)
      requires forall c, p ::
        c in InterestingOnes(r, list) && c < |r.ps| && p in r.ps[c] && p < |r.ps| && !r.uninteresting[p] ==> p in list
      modifies counted
      ensures all == |Changing(r, InterestingOnes(r, list))|
      ensures best.None? <==> InterestingOnes(r, list) == {}
      ensures best.Some? && all > 0 ==>
        best.value in Changing(r, InterestingOnes(r, list)) && reaches == Weight(r, best.value)
      ensures best.Some? && all > 0 ==> forall x :: x in Changing(r, InterestingOnes(r, list)) ==>
        Distance(Weight(r, x), all) <= Distance(Weight(r, best.value), all)
      ensures NoneCounted()
    {
      hide Weight, Bisectable;
      var kept;
      kept, all := KeepInteresting(list);
      FilteredIsBisectable(r, list, kept, all);
      assert Elements(kept) == InterestingOnes(r, list);
      var weights := new int[|r.ps|](_ => 0);
      best := DoFindBisection(kept, all, weights);
      reaches := 0;
      if best.Some? {
        reaches := weights[best.value];
      } else {
        assert kept == [];
        assert Elements(kept) == {};
      }
      if kept != [] { assert kept[0] in Elements(kept); }
    }
  }
}
