/** What it means for a list of commits to be topologically sorted, and the bookkeeping of the
    in-place sort (commit.c:501-586), on snapshots. */
module TopoOrder {
  import opened CommitGraph
  import opened DateList

  /** Every listed child comes before its listed parents. */
  ghost predicate ChildrenFirst(ps: Parents, out: seq<nat>)
    requires Known(ps, out)
  {
    forall i, j :: 0 <= i < |out| && 0 <= j < |out| && out[j] in ps[out[i]] ==> i < j
  }

  /** All listed children of `out[l]` are among the first `k`. */
  ghost predicate ReadyAt(ps: Parents, out: seq<nat>, k: nat, l: nat)
    requires l < |out| && Known(ps, out)
  {
    forall i :: 0 <= i < |out| && out[l] in ps[out[i]] ==> i < k
  }

  ghost predicate Permutation(a: seq<nat>, b: seq<nat>) {
    multiset(a) == multiset(b)
  }

  // ---------------------------------------------------------------- edge counts

  /** How often commits of `list` outside `done` name `c` as a parent. */
  ghost function Edges(ps: Parents, list: seq<nat>, done: seq<nat>, c: nat): nat
    requires Known(ps, list)
  {
    if list == [] then 0
    else
      var d := list[|list| - 1];
      Edges(ps, list[..|list| - 1], done, c) + if d in done then 0 else multiset(ps[d])[c]
  }

  lemma {:induction false} EdgesSameDone(ps: Parents, list: seq<nat>, done: seq<nat>, done': seq<nat>, c: nat)
    requires Known(ps, list) && forall x :: x in list ==> (x in done <==> x in done')
    ensures Edges(ps, list, done, c) == Edges(ps, list, done', c)
  {
    if list != [] {
      EdgesSameDone(ps, list[..|list| - 1], done, done', c);
    }
  }

  /** Emitting `d` takes its own parent entries out of the count. */
  lemma {:induction false} EdgesEmit(ps: Parents, list: seq<nat>, done: seq<nat>, d: nat, c: nat)
    requires Known(ps, list) && Distinct(list) && d in list && d !in done
    ensures Edges(ps, list, done, c) == Edges(ps, list, done + [d], c) + multiset(ps[d])[c]
  {
    var init, last := list[..|list| - 1], list[|list| - 1];
    assert forall x :: x in list <==> x in init || x == last;
    if last == d {
      assert d !in init;
      EdgesSameDone(ps, init, done, done + [d], c);
    } else {
      assert d in init;
      EdgesEmit(ps, init, done, d, c);
    }
  }

  lemma {:induction false} EdgesZero(ps: Parents, list: seq<nat>, done: seq<nat>, c: nat)
    requires Known(ps, list)
    ensures Edges(ps, list, done, c) == 0 <==> forall x :: x in list && x !in done ==> c !in ps[x]
  {
    if list != [] {
      var init, last := list[..|list| - 1], list[|list| - 1];
      EdgesZero(ps, init, done, c);
      assert forall x :: x in list <==> x in init || x == last;
    }
  }

  // ---------------------------------------------------------------- the sort's invariants

  /** What has been emitted so far is a correctly ordered part of `list`. */
  ghost predicate Emitting(ps: Parents, list: seq<nat>, out: seq<nat>) {
    && Distinct(out) && Known(ps, out)
    && (forall c :: c in out ==> c in list)
    && (forall j, d :: 0 <= j < |out| && d in list && d < |ps| && out[j] in ps[d] ==> d in out[..j])
  }

  ghost predicate AllOut(ps: Parents, list: seq<nat>, done: seq<nat>, c: nat)
    requires Known(ps, list)
  {
    forall d :: d in list && c in ps[d] ==> d in done
  }

  /** The counters: one more than the edges still to come, for commits still to be emitted. */
  ghost predicate Counted(ps: Parents, list: seq<nat>, out: seq<nat>, indegree: seq<nat>) {
    && |indegree| == |ps| && Known(ps, list)
    && forall c :: 0 <= c < |ps| ==>
      indegree[c] == if c in list && c !in out then 1 + Edges(ps, list, out, c) else 0
  }

  /** The work list holds exactly the commits all of whose listed children are out. */
  ghost predicate WorkIsReady(list: seq<nat>, out: seq<nat>, indegree: seq<nat>, work: seq<nat>) {
    && Distinct(work)
    && (forall c :: c in work <==> c < |indegree| && c in list && c !in out && indegree[c] == 1)
  }

  /** Half-way through the parents of `commit`: `rest` are the parent entries still to be subtracted. */
  ghost predicate CountedBut(ps: Parents, list: seq<nat>, out: seq<nat>, indegree: seq<nat>, commit: nat,
                             rest: seq<nat>) {
    && |indegree| == |ps| && Known(ps, list)
    && forall c :: 0 <= c < |ps| && c != commit ==>
      indegree[c] == if c in list && c !in out + [commit]
                     then 1 + Edges(ps, list, out + [commit], c) + multiset(rest)[c] else 0
  }

  lemma StartParents(ps: Parents, list: seq<nat>, out: seq<nat>, indegree: seq<nat>, commit: nat)
    requires Counted(ps, list, out, indegree) && Distinct(list) && commit in list && commit !in out
    ensures CountedBut(ps, list, out, indegree, commit, ps[commit])
  {
    forall c | 0 <= c < |ps| && c != commit && c in list && c !in out
      ensures indegree[c] == 1 + Edges(ps, list, out + [commit], c) + multiset(ps[commit])[c]
    {
      EdgesEmit(ps, list, out, commit, c);
    }
  }

  lemma SkipParent(ps: Parents, list: seq<nat>, out: seq<nat>, indegree: seq<nat>, commit: nat, rest: seq<nat>)
    requires CountedBut(ps, list, out, indegree, commit, rest) && rest != []
    requires rest[0] != commit && rest[0] < |ps| && indegree[rest[0]] == 0
    ensures CountedBut(ps, list, out, indegree, commit, rest[1..])
  {
    assert rest == [rest[0]] + rest[1..];
  }

  lemma SubtractParent(ps: Parents, list: seq<nat>, out: seq<nat>, indegree: seq<nat>, commit: nat, rest: seq<nat>)
    requires CountedBut(ps, list, out, indegree, commit, rest) && rest != []
    requires rest[0] != commit && rest[0] < |ps| && indegree[rest[0]] != 0
    ensures indegree[rest[0]] > 1
    ensures CountedBut(ps, list, out, indegree[rest[0] := indegree[rest[0]] - 1], commit, rest[1..])
  {
    assert rest == [rest[0]] + rest[1..];
  }

  /** The head of the work list can be emitted: all its listed children are out. */
  lemma EmitHead(ps: Parents, list: seq<nat>, out: seq<nat>, commit: nat)
    requires Known(ps, list) && Emitting(ps, list, out)
    requires commit in list && commit !in out && Edges(ps, list, out, commit) == 0
    ensures Emitting(ps, list, out + [commit])
  {
    EdgesZero(ps, list, out, commit);
    var out' := out + [commit];
    forall j, d | 0 <= j < |out'| && d in list && d < |ps| && out'[j] in ps[d]
      ensures d in out'[..j]
    {
      assert out'[..j] == out[..j];
    }
  }

  /** An empty work list means everything is out: otherwise climb to a commit with no child left. */
  lemma {:induction false} Drained(ps: Parents, list: seq<nat>, out: seq<nat>, indegree: seq<nat>, c: nat)
    requires Dag(ps) && Counted(ps, list, out, indegree) && WorkIsReady(list, out, indegree, []) && c in list
    ensures c in out
    decreases ProperlyAbove(ps, c)
  {
    if c !in out {
      assert c !in [] && indegree[c] != 1;
      EdgesZero(ps, list, out, c);
      var d :| d in list && d !in out && c in ps[d];
      ParentIsProper(ps, d, c);
      AboveShrinks(ps, d, c);
      Drained(ps, list, out, indegree, d);
    }
  }

  lemma {:induction false} DistinctCounts(s: seq<nat>, x: nat)
    requires Distinct(s)
    ensures multiset(s)[x] == if x in s then 1 else 0
  {
    if s != [] {
      assert s == s[..|s| - 1] + [s[|s| - 1]];
      DistinctCounts(s[..|s| - 1], x);
    }
  }

  lemma SortedAtEnd(ps: Parents, list: seq<nat>, out: seq<nat>)
    requires Known(ps, list) && Distinct(list) && Emitting(ps, list, out)
    requires forall c :: c in list ==> c in out
    ensures Permutation(out, list) && ChildrenFirst(ps, out)
  {
    forall x: nat
      ensures multiset(out)[x] == multiset(list)[x]
    {
      DistinctCounts(out, x);
      DistinctCounts(list, x);
    }
    assert multiset(out) == multiset(list);
    forall i, j | 0 <= i < |out| && 0 <= j < |out| && out[j] in ps[out[i]]
      ensures i < j
    {
      assert out[i] in out[..j];
    }
  }

  lemma PopReady(list: seq<nat>, out: seq<nat>, indegree: seq<nat>, work: seq<nat>)
    requires work != [] && WorkIsReady(list, out, indegree, work)
    ensures WorkIsReady(list, out + [work[0]], indegree, work[1..])
  {
  }

  lemma FinishParents(ps: Parents, list: seq<nat>, out: seq<nat>, indegree: seq<nat>, commit: nat)
    requires CountedBut(ps, list, out, indegree, commit, []) && commit < |ps|
    ensures Counted(ps, list, out + [commit], indegree[commit := 0])
  {
  }

  lemma NothingEmitted(ps: Parents, list: seq<nat>)
    requires Known(ps, list)
    ensures Emitting(ps, list, [])
  {
  }

  lemma EmitReady(ps: Parents, list: seq<nat>, out: seq<nat>, indegree: seq<nat>, work: seq<nat>)
    requires Counted(ps, list, out, indegree) && Emitting(ps, list, out)
    requires work != [] && WorkIsReady(list, out, indegree, work)
    ensures Emitting(ps, list, out + [work[0]]) && Known(ps, out + [work[0]]) && |out| < |list|
  {
    assert work[0] in work;
    EmitHead(ps, list, out, work[0]);
    DistinctFits(out + [work[0]], list);
  }

  lemma AllEmitted(ps: Parents, list: seq<nat>, out: seq<nat>, indegree: seq<nat>)
    requires Dag(ps) && Known(ps, list) && Distinct(list)
    requires Emitting(ps, list, out) && Counted(ps, list, out, indegree) && WorkIsReady(list, out, indegree, [])
    ensures Permutation(out, list) && Known(ps, out) && ChildrenFirst(ps, out)
    ensures forall c :: 0 <= c < |ps| ==> indegree[c] == 0
  {
    forall c | c in list
      ensures c in out
    {
      Drained(ps, list, out, indegree, c);
    }
    SortedAtEnd(ps, list, out);
  }
}
