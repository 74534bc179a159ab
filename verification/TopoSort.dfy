/** The in-place topological sort (commit.c:501-586). */
module TopoSort {
  import opened CommitGraph
  import opened DateList
  import opened TopoOrder
  import opened TopoTurn

  class History {
    const ps: Parents
    const dates: seq<nat>
    const indegree: array<nat>

    ghost predicate Valid() {
      Dag(ps) && |dates| == |ps| && indegree.Length == |ps|
    }

    constructor (ps: Parents, dates: seq<nat>)
      requires Dag(ps) && |dates| == |ps|
      ensures Valid() && fresh(indegree) && forall c :: 0 <= c < indegree.Length ==> indegree[c] == 0
      ensures this.ps == ps && this.dates == dates
    {
      this.ps, this.dates := ps, dates;
      indegree := new nat[|ps|](_ => 0);
    }

    /** Marks the listed commits and counts, for each, the parent entries that name it. */
    method CountChildren(list: seq<nat>)
      requires Valid() && Known(ps, list) && Distinct(list)
      requires forall c :: 0 <= c < |ps| && c !in list ==> indegree[c] == 0
      modifies indegree
      ensures Counted(ps, list, [], indegree[..])
    {
      for i := 0 to |list|
        invariant forall c :: 0 <= c < |ps| && c !in list ==> indegree[c] == 0
        invariant forall k :: 0 <= k < i ==> indegree[list[k]] == 1
      {
        indegree[list[i]] := 1;
      }
      for i := 0 to |list|
        invariant CountedUpTo(list, list[..i], [])
      {
        CountParents(list, i);
      }
      assert list[..|list|] == list;
    }

    method CountParents(list: seq<nat>, i: nat)
      requires Valid() && Known(ps, list) && i < |list| && CountedUpTo(list, list[..i], [])
      modifies indegree
      ensures CountedUpTo(list, list[..i + 1], [])
    {
      var parents := ps[list[i]];
      assert list[..i + 1][..i] == list[..i];
      for j := 0 to |parents|
        invariant CountedUpTo(list, list[..i], parents[..j])
      {
        var p := parents[j];
        assert parents[..j + 1] == parents[..j] + [p];
        if indegree[p] != 0 {
          indegree[p] := indegree[p] + 1;
        }
      }
      assert parents[..|parents|] == parents;
    }

    /** The counters after the parent entries of `seen` and the entries `part` have been counted. */
    ghost predicate CountedUpTo(list: seq<nat>, seen: seq<nat>, part: seq<nat>)
      requires Valid() && Known(ps, list) && Known(ps, seen)
      reads indegree
    {
      forall c :: 0 <= c < |ps| ==>
        indegree[c] == if c in list then 1 + Edges(ps, seen, [], c) + multiset(part)[c] else 0
    }

    /** The tips, in list order: commits no listed commit names as a parent. */
    method FindTips(list: seq<nat>) returns (work: seq<nat>)
      requires Valid() && Known(ps, list) && Distinct(list) && Counted(ps, list, [], indegree[..])
      ensures WorkIsReady(list, [], indegree[..], work) && Known(ps, work)
      ensures forall a, b :: 0 <= a < b < |work| ==> Before(list, work[a], work[b])
    {
      work := [];
      for i := 0 to |list|
        invariant Distinct(work) && Known(ps, work)
        invariant forall a, b :: 0 <= a < b < |work| ==> Before(list[..i], work[a], work[b])
        invariant forall c :: c in work <==> c in list[..i] && c < |ps| && indegree[c] == 1
      {
        hide Before;
        NextBefore(list, i);
        assert forall a :: 0 <= a < |work| ==> work[a] in work && work[a] in list[..i];
        if indegree[list[i]] == 1 {
          work := work + [list[i]];
        }
        assert list[..i + 1] == list[..i] + [list[i]];
      }
      assert list[..|list|] == list;
    }

    /** Stable sort, newest first. */
    method SortByDate(list: seq<nat>) returns (r: seq<nat>)
      requires Valid() && Known(ps, list) && Distinct(list)
      ensures Known(ps, r) && StablyNewest(dates, list, r) && Distinct(r) && forall x :: x in r <==> x in list
    {
      hide StablyNewest;
      NothingSorted(list);
      r := [];
      for i := 0 to |list|
        invariant Known(ps, r) && StablyNewest(dates, list[..i], r) && Distinct(r)
        invariant forall x :: x in r <==> x in list[..i]
      {
        ghost var before := r;
        r := InsertByDate(dates, list[i], r);
        ghost var k :| DatePosition(dates, before, k, list[i]) && r == Splice(before, k, list[i]);
        NextStable(dates, list, i, before, k);
        assert list[..i + 1] == list[..i] + [list[i]];
      }
      assert list[..|list|] == list;
    }

    lemma NothingSorted(list: seq<nat>)
      ensures StablyNewest(dates, list[..0], [])
    {
    }

    /** Puts the parent at place `i` into the work list. */
    method Queue(work: seq<nat>, commit: nat, i: nat, lifo: bool, ghost list: seq<nat>, ghost out: seq<nat>)
      returns (more: seq<nat>)
      requires Valid() && Known(ps, work) && Known(ps, out) && commit < |ps| && i < |ps[commit]| && ps[commit][i] < |ps|
      requires WorkSorted(ps, dates, list, lifo, out + [commit], work)
      requires Distinct(work) && forall x :: x in work ==> x !in ps[commit][i..]
      ensures Known(ps, more) && WorkSorted(ps, dates, list, lifo, out + [commit], more)
      ensures Distinct(more) && forall x :: x in more <==> x == ps[commit][i] || x in work
    {
      hide WorkSorted;
      var parent := ps[commit][i];
      assert parent == ps[commit][i..][0];
      if !lifo {
        more := InsertByDate(dates, parent, work);
        ghost var k :| DatePosition(dates, work, k, parent) && more == Splice(work, k, parent);
        ReleasedSorted(ps, dates, list, false, out, commit, work, i, k);
      } else {
        ReleasedSorted(ps, dates, list, true, out, commit, work, i, 0);
        more := [parent] + work;
        assert more == Splice(work, 0, parent);
      }
    }

    /** Takes one parent entry of `commit` off the parent's counter; queues the parent when it was the last. */
    method ReleaseParent(commit: nat, rest: seq<nat>, work: seq<nat>, lifo: bool, ghost list: seq<nat>,
                         ghost out: seq<nat>) returns (more: seq<nat>)
      requires Valid() && Known(ps, work) && Known(ps, out) && commit < |ps|
      requires WorkSorted(ps, dates, list, lifo, out + [commit], work)
      requires rest != [] && rest[0] < |ps| && rest[0] != commit
      requires |rest| <= |ps[commit]| && rest == ps[commit][|ps[commit]| - |rest|..]
      requires CountedBut(ps, list, out, indegree[..], commit, rest)
      requires WorkIsReady(list, out + [commit], indegree[..], work)
      modifies indegree
      ensures indegree[commit] == old(indegree[commit])
      ensures Known(ps, more) && WorkSorted(ps, dates, list, lifo, out + [commit], more)
      ensures CountedBut(ps, list, out, indegree[..], commit, rest[1..])
      ensures WorkIsReady(list, out + [commit], indegree[..], more)
    {
      hide WorkSorted;
      more := work;
      var parent := rest[0];
      ghost var before := indegree[..];
      if indegree[parent] == 0 {
        SkipParent(ps, list, out, before, commit, rest);
        return;
      }
      SubtractParent(ps, list, out, before, commit, rest);
      indegree[parent] := indegree[parent] - 1;
      assert indegree[..] == before[parent := before[parent] - 1];
      if indegree[parent] == 1 {
        ReadyIsNoParent(ps, list, out, before, commit, rest, work);
        more := Queue(work, commit, |ps[commit]| - |rest|, lifo, list, out);
      }
    }

    /** Emits the head of the work list and releases its parents. */
    method EmitOne(work: seq<nat>, lifo: bool, ghost list: seq<nat>, ghost out: seq<nat>) returns (more: seq<nat>)
      requires Valid() && Known(ps, list) && Distinct(list) && Counted(ps, list, out, indegree[..])
      requires WorkIsReady(list, out, indegree[..], work) && work != []
      requires Known(ps, work) && Known(ps, out) && WorkSorted(ps, dates, list, lifo, out, work)
      modifies indegree
      ensures Known(ps, more) && Known(ps, out + [work[0]]) && WorkSorted(ps, dates, list, lifo, out + [work[0]], more)
      ensures Counted(ps, list, out + [work[0]], indegree[..])
      ensures WorkIsReady(list, out + [work[0]], indegree[..], more)
    {
      hide Counted, CountedBut, WorkSorted;
      var commit := work[0];
      var parents := ps[commit];
      StartParents(ps, list, out, indegree[..], commit);
      more := work[1..];
      PopReady(list, out, indegree[..], work);
      ReadyIsNoParent(ps, list, out, indegree[..], commit, parents, more);
      EmitKeepsSorted(ps, dates, list, lifo, out, work);
      for i := 0 to |parents|
        invariant CountedBut(ps, list, out, indegree[..], commit, parents[i..])
        invariant WorkIsReady(list, out + [commit], indegree[..], more)
        invariant Known(ps, more) && WorkSorted(ps, dates, list, lifo, out + [commit], more)
      {
        ParentIsProper(ps, commit, parents[i]);
        assert parents[i..][1..] == parents[i + 1..];
        more := ReleaseParent(commit, parents[i..], more, lifo, list, out);
      }
      ghost var before := indegree[..];
      indegree[commit] := 0;
      assert indegree[..] == before[commit := 0];
      FinishParents(ps, list, out, before, commit);
    }

    /** Sorts `list` so that children precede their parents.  Of the ready commits the newest always comes next, and of
        those as new as each other the one released first; or with `lifo` the one released last.  All counters end at
        zero. */
    method SortInTopologicalOrder(list: seq<nat>, lifo: bool) returns (out: seq<nat>)
      requires Valid() && Known(ps, list) && Distinct(list)
      requires forall c :: 0 <= c < |ps| && c !in list ==> indegree[c] == 0
      modifies indegree
      ensures Permutation(out, list) && Known(ps, out) && ChildrenFirst(ps, out)
      ensures TakenInTurn(ps, dates, list, lifo, out)
      ensures forall c :: 0 <= c < |ps| ==> indegree[c] == 0
    {
      hide Counted, WorkIsReady, Emitting, ChildrenFirst, Permutation, WorkSorted, TurnsSoFar, TakenInTurn;
      out := [];
      NothingEmitted(ps, list);
      NothingReleased(ps, dates, list, lifo);
      CountChildren(list);
      var work := FindTips(list);
      ghost var tips := work;
      if !lifo {
        work := SortWork(work, list);
      }
      TipsSorted(ps, dates, list, tips, lifo, work);
      while work != []
        invariant Known(ps, work) && Known(ps, out) && WorkSorted(ps, dates, list, lifo, out, work)
        invariant Emitting(ps, list, out) && |out| <= |list|
        invariant TurnsSoFar(ps, dates, list, lifo, out)
        invariant Counted(ps, list, out, indegree[..]) && WorkIsReady(list, out, indegree[..], work)
        decreases |list| - |out|
      {
        EmitFirst(ps, dates, list, lifo, out, indegree[..], work);
        EmitReady(ps, list, out, indegree[..], work);
        var commit := work[0];
        work := EmitOne(work, lifo, list, out);
        out := out + [commit];
      }
      AllEmitted(ps, list, out, indegree[..]);
      AllOutAtEnd(ps, list, out, indegree[..]);
      InTurnAtEnd(ps, dates, list, lifo, out);
    }

    method SortWork(work: seq<nat>, ghost list: seq<nat>) returns (r: seq<nat>)
      requires Valid() && Known(ps, work) && WorkIsReady(list, [], indegree[..], work)
      ensures WorkIsReady(list, [], indegree[..], r) && Known(ps, r) && StablyNewest(dates, work, r)
    {
      r := SortByDate(work);
    }
  }
}
