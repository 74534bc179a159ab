/** Which commit the topological sort takes next (commit.c:529-579). */
module TopoTurn {
  import opened CommitGraph
  import opened DateList
  import opened TopoOrder

  /** How much of `out` it took to release `c`: up to its last child, or nothing for a tip. */
  function Release(ps: Parents, out: seq<nat>, c: nat): (n: nat)
    requires forall i :: 0 <= i < |out| ==> out[i] < |ps|
    ensures n <= |out| && (n > 0 ==> c in ps[out[n - 1]])
  {
    if out == [] then 0
    else if c in ps[out[|out| - 1]] then |out|
    else Release(ps, out[..|out| - 1], c)
  }

  /** The place behind the last mention of `c`. */
  function LastAt(parents: seq<nat>, c: nat): (n: nat)
    ensures n <= |parents| && (n > 0 ==> parents[n - 1] == c) && forall i :: n <= i < |parents| ==> parents[i] != c
  {
    if parents == [] then 0
    else if parents[|parents| - 1] == c then |parents|
    else LastAt(parents[..|parents| - 1], c)
  }

  ghost predicate Before(list: seq<nat>, a: nat, b: nat) {
    exists i, j :: 0 <= i < j < |list| && list[i] == a && list[j] == b
  }

  /** `a` was released after `b`: by a later commit, by a later parent entry of the same one, or, for two tips, it
      comes earlier in the list. */
  ghost predicate ReleasedLater(ps: Parents, list: seq<nat>, out: seq<nat>, a: nat, b: nat)
    requires Known(ps, out)
  {
    var m, n := Release(ps, out, a), Release(ps, out, b);
    if m != n then m > n
    else if m > 0 then LastAt(ps[out[m - 1]], a) > LastAt(ps[out[m - 1]], b)
    else Before(list, a, b)
  }

  /** `a` was released before `b`; of two tips again the one that comes earlier in the list. */
  ghost predicate ReleasedEarlier(ps: Parents, list: seq<nat>, out: seq<nat>, a: nat, b: nat)
    requires Known(ps, out)
  {
    var m, n := Release(ps, out, a), Release(ps, out, b);
    if m != n then m < n
    else if m > 0 then LastAt(ps[out[m - 1]], a) < LastAt(ps[out[m - 1]], b)
    else Before(list, a, b)
  }

  /** Which of two ready commits goes first: the one released last; or by date, the newer one, and of two with the same
      date the one released first. */
  ghost predicate GoesFirst(ps: Parents, dates: seq<nat>, list: seq<nat>, lifo: bool, out: seq<nat>, a: nat, b: nat)
    requires Known(ps, out) && a < |dates| && b < |dates|
  {
    if lifo then ReleasedLater(ps, list, out, a, b)
    else dates[a] > dates[b] || (dates[a] == dates[b] && ReleasedEarlier(ps, list, out, a, b))
  }

  /** At its turn, each commit goes first among those whose listed children are all out. */
  ghost predicate TakenInTurn(ps: Parents, dates: seq<nat>, list: seq<nat>, lifo: bool, out: seq<nat>)
    requires |dates| == |ps| && Known(ps, out)
  {
    forall k, l :: 0 <= k < l < |out| && ReadyAt(ps, out, k, l) ==>
      GoesFirst(ps, dates, list, lifo, out[..k], out[k], out[l])
  }

  // ---------------------------------------------------------------- the work list

  ghost predicate WorkSorted(ps: Parents, dates: seq<nat>, list: seq<nat>, lifo: bool, out: seq<nat>, work: seq<nat>)
    requires |dates| == |ps| && Known(ps, out) && Known(ps, work)
  {
    forall i, j :: 0 <= i < j < |work| ==> GoesFirst(ps, dates, list, lifo, out, work[i], work[j])
  }

  ghost predicate TurnsSoFar(ps: Parents, dates: seq<nat>, list: seq<nat>, lifo: bool, out: seq<nat>)
    requires |dates| == |ps| && Known(ps, list) && Known(ps, out)
  {
    forall k, c :: 0 <= k < |out| && c in list && c !in out[..k + 1] && AllOut(ps, list, out[..k], c) ==>
      GoesFirst(ps, dates, list, lifo, out[..k], out[k], c)
  }

  /** Newest first, and of equal dates the one earlier in the list first. */
  ghost predicate StablyNewest(dates: seq<nat>, list: seq<nat>, work: seq<nat>)
    requires InRange(dates, work)
  {
    forall i, j :: 0 <= i < j < |work| ==>
      dates[work[i]] > dates[work[j]] || (dates[work[i]] == dates[work[j]] && Before(list, work[i], work[j]))
  }

  /** The tips: in list order, or stably sorted by date. */
  lemma TipsSorted(ps: Parents, dates: seq<nat>, list: seq<nat>, tips: seq<nat>, lifo: bool, work: seq<nat>)
    requires |dates| == |ps| && Known(ps, work)
    requires forall i, j :: 0 <= i < j < |tips| ==> Before(list, tips[i], tips[j])
    requires if lifo then work == tips else StablyNewest(dates, tips, work)
    ensures WorkSorted(ps, dates, list, lifo, [], work)
  {
  }

  /** An element later in the list comes after those before it. */
  lemma NextBefore(list: seq<nat>, i: nat)
    requires i < |list|
    ensures forall a :: a in list[..i] ==> Before(list[..i + 1], a, list[i])
    ensures forall a, b :: Before(list[..i], a, b) ==> Before(list[..i + 1], a, b)
  {
    var init, more := list[..i], list[..i + 1];
    assert forall k :: 0 <= k < i ==> more[k] == init[k];
    forall a | a in init
      ensures Before(more, a, list[i])
    {
      var k :| 0 <= k < i && init[k] == a;
      assert more[k] == a && more[i] == list[i];
    }
    forall a, b | Before(init, a, b)
      ensures Before(more, a, b)
    {
      var m, n :| 0 <= m < n < |init| && init[m] == a && init[n] == b;
      assert more[m] == a && more[n] == b;
    }
  }

  /** Putting in the next one behind those not older keeps the order stable. */
  lemma NextStable(dates: seq<nat>, list: seq<nat>, i: nat, work: seq<nat>, k: nat)
    requires i < |list| && list[i] < |dates| && InRange(dates, work) && DatePosition(dates, work, k, list[i])
    requires StablyNewest(dates, list[..i], work) && forall x :: x in work ==> x in list[..i]
    ensures InRange(dates, Splice(work, k, list[i])) && StablyNewest(dates, list[..i + 1], Splice(work, k, list[i]))
  {
    hide Before;
    NextBefore(list, i);
    var r := Splice(work, k, list[i]);
    forall a, b | 0 <= a < b < |r|
      ensures dates[r[a]] > dates[r[b]] || (dates[r[a]] == dates[r[b]] && Before(list[..i + 1], r[a], r[b]))
    {
      if b == k {
        assert r[a] in work;
      } else if a == k {
        assert k == b - 1 || dates[work[k]] >= dates[work[b - 1]];
      } else {
        var a', b' := if a < k then a else a - 1, if b < k then b else b - 1;
        assert r[a] == work[a'] && r[b] == work[b'];
      }
    }
  }

  /** Before its parents are released, emitting the head changes no other entry's release. */
  lemma EmitKeepsSorted(ps: Parents, dates: seq<nat>, list: seq<nat>, lifo: bool, out: seq<nat>, work: seq<nat>)
    requires |dates| == |ps| && Known(ps, out) && Known(ps, work) && work != []
    requires WorkSorted(ps, dates, list, lifo, out, work) && forall x :: x in work[1..] ==> x !in ps[work[0]]
    ensures Known(ps, out + [work[0]]) && Known(ps, work[1..])
    ensures WorkSorted(ps, dates, list, lifo, out + [work[0]], work[1..])
  {
    hide Before;
    var out', rest := out + [work[0]], work[1..];
    assert out'[..|out|] == out;
    assert Known(ps, out') && Known(ps, rest);
    forall i, j | 0 <= i < j < |rest|
      ensures GoesFirst(ps, dates, list, lifo, out', rest[i], rest[j])
    {
      assert GoesFirst(ps, dates, list, lifo, out, work[i + 1], work[j + 1]);
    }
  }

  /** The parent at place `i` is released after everything that is no parent from there on. */
  lemma ReleasedLast(ps: Parents, list: seq<nat>, out: seq<nat>, commit: nat, i: nat, x: nat)
    requires Known(ps, out) && commit < |ps| && i < |ps[commit]| && x !in ps[commit][i..]
    ensures ReleasedLater(ps, list, out + [commit], ps[commit][i], x)
    ensures ReleasedEarlier(ps, list, out + [commit], x, ps[commit][i])
  {
    var parents, out' := ps[commit], out + [commit];
    assert out'[|out'| - 1] == commit && Release(ps, out', parents[i]) == |out'|;
    assert forall k :: i <= k < |parents| ==> parents[k] == parents[i..][k - i];
    assert LastAt(parents, parents[i]) > i;
  }

  /** A parent released at place `i` of its last child goes in front, or by date behind all that are not older. */
  lemma ReleasedSorted(ps: Parents, dates: seq<nat>, list: seq<nat>, lifo: bool, out: seq<nat>, commit: nat,
                       work: seq<nat>, i: nat, k: nat)
    requires |dates| == |ps| && Dag(ps) && Known(ps, out) && Known(ps, work) && commit < |ps| && i < |ps[commit]|
    requires WorkSorted(ps, dates, list, lifo, out + [commit], work) && forall x :: x in work ==> x !in ps[commit][i..]
    requires ps[commit][i] < |ps| && if lifo then k == 0 else DatePosition(dates, work, k, ps[commit][i])
    ensures k <= |work| && Known(ps, Splice(work, k, ps[commit][i]))
    ensures WorkSorted(ps, dates, list, lifo, out + [commit], Splice(work, k, ps[commit][i]))
  {
    hide ReleasedLater, ReleasedEarlier;
    var p := ps[commit][i];
    var r := Splice(work, k, p);
    forall a | 0 <= a < |work|
      ensures ReleasedLater(ps, list, out + [commit], p, work[a])
      ensures ReleasedEarlier(ps, list, out + [commit], work[a], p)
    {
      assert work[a] in work;
      ReleasedLast(ps, list, out, commit, i, work[a]);
    }
    forall a, b | 0 <= a < b < |r|
      ensures r[a] < |ps| && r[b] < |ps| && GoesFirst(ps, dates, list, lifo, out + [commit], r[a], r[b])
    {
      if a == k {
        assert r[b] == work[b - 1];
        assert k == b - 1 || GoesFirst(ps, dates, list, lifo, out + [commit], work[k], work[b - 1]);
      } else if b != k {
        var a', b' := if a < k then a else a - 1, if b < k then b else b - 1;
        assert r[a] == work[a'] && r[b] == work[b'];
      } else {
        assert r[a] == work[a];
      }
    }
  }

  /** Whatever the counters show as ready is no parent still to be released. */
  lemma ReadyIsNoParent(ps: Parents, list: seq<nat>, out: seq<nat>, indegree: seq<nat>, commit: nat, rest: seq<nat>,
                        work: seq<nat>)
    requires CountedBut(ps, list, out, indegree, commit, rest) && WorkIsReady(list, out + [commit], indegree, work)
    ensures forall x :: x in work ==> x !in rest
  {
    forall x | x in work
      ensures x !in rest
    {
      assert x in list && x !in out + [commit] && x != commit;
      assert multiset(rest)[x] == 0;
    }
  }

  /** The head of the work list goes first among all ready commits. */
  lemma EmitFirst(ps: Parents, dates: seq<nat>, list: seq<nat>, lifo: bool, out: seq<nat>, indegree: seq<nat>,
                  work: seq<nat>)
    requires |dates| == |ps| && Counted(ps, list, out, indegree) && Known(ps, out)
    requires TurnsSoFar(ps, dates, list, lifo, out)
    requires WorkIsReady(list, out, indegree, work) && work != [] && Known(ps, work)
    requires WorkSorted(ps, dates, list, lifo, out, work)
    ensures Known(ps, out + [work[0]]) && TurnsSoFar(ps, dates, list, lifo, out + [work[0]])
  {
    hide GoesFirst;
    var out' := out + [work[0]];
    forall k, c | 0 <= k < |out'| && c in list && c !in out'[..k + 1] && AllOut(ps, list, out'[..k], c)
      ensures GoesFirst(ps, dates, list, lifo, out'[..k], out'[k], c)
    {
      assert out'[..k] == out[..k];
      if k == |out| {
        assert out[..k] == out && out'[..k + 1] == out';
        EdgesZero(ps, list, out, c);
        assert c in work;
        var j :| 0 <= j < |work| && work[j] == c;
        assert j > 0;
      } else {
        assert out'[..k + 1] == out[..k + 1];
      }
    }
  }

  lemma NothingReleased(ps: Parents, dates: seq<nat>, list: seq<nat>, lifo: bool)
    requires |dates| == |ps| && Known(ps, list)
    ensures TurnsSoFar(ps, dates, list, lifo, [])
  {
  }

  /** With the work list empty nothing is left behind. */
  lemma AllOutAtEnd(ps: Parents, list: seq<nat>, out: seq<nat>, indegree: seq<nat>)
    requires Dag(ps) && Counted(ps, list, out, indegree) && WorkIsReady(list, out, indegree, [])
    ensures forall c :: c in list ==> c in out
  {
    forall c | c in list
      ensures c in out
    {
      Drained(ps, list, out, indegree, c);
    }
  }

  lemma InTurnAtEnd(ps: Parents, dates: seq<nat>, list: seq<nat>, lifo: bool, out: seq<nat>)
    requires |dates| == |ps| && Known(ps, list) && Emitting(ps, list, out)
    requires TurnsSoFar(ps, dates, list, lifo, out) && forall c :: c in list ==> c in out
    ensures TakenInTurn(ps, dates, list, lifo, out)
  {
    hide GoesFirst;
    forall k, l | 0 <= k < l < |out| && ReadyAt(ps, out, k, l)
      ensures GoesFirst(ps, dates, list, lifo, out[..k], out[k], out[l])
    {
      assert out[l] !in out[..k + 1];
      forall d | d in list && out[l] in ps[d]
        ensures d in out[..k]
      {
        var i :| 0 <= i < |out| && out[i] == d;
        assert i < k && out[..k][i] == d;
      }
    }
  }
}
