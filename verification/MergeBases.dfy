/** Merge bases, ancestry tests and head reduction (commit.c:442-868). */
module MergeBases {
  import opened CommitGraph
  import opened DateList
  import opened Painting
  import opened Marks

  /** Only common ancestors, and every merge base among them. */
  ghost predicate Candidates(ps: Parents, one: nat, twos: seq<nat>, result: seq<nat>) {
    && (forall c :: c in result ==> Common(ps, one, twos, c))
    && (forall c :: MergeBase(ps, one, twos, c) ==> c in result)
  }

  ghost predicate AllClear(f: seq<Flags>) {
    forall c :: 0 <= c < |f| ==> f[c] == CLEAR
  }

  lemma SelfIsOnlyBase(ps: Parents, one: nat, twos: seq<nat>)
    requires one < |ps| && one in twos
    ensures Candidates(ps, one, twos, [one])
  {
    ReachesSelf(ps, one);
    assert AncestorOfAny(ps, twos, one);
    assert Common(ps, one, twos, one);
    forall c | MergeBase(ps, one, twos, c)
      ensures c == one
    {
    }
  }

  lemma OneCandidateIsExact(ps: Parents, one: nat, twos: seq<nat>, result: seq<nat>)
    requires Dag(ps) && Candidates(ps, one, twos, result) && |result| <= 1
    ensures forall c :: c in result <==> MergeBase(ps, one, twos, c)
  {
    if |result| == 1 {
      assert result[0] in result;
      var m := MergeBaseAbove(ps, one, twos, result[0]);
      assert m in result;
    }
  }

  /** For two distinct commits, a candidate base equal to one of them decides ancestry. */
  lemma CandidateDecides(ps: Parents, a: nat, b: nat, result: seq<nat>)
    requires Dag(ps) && Candidates(ps, a, [b], result) && a < |ps| && b < |ps| && a != b
    ensures a in result <==> Reaches(ps, b, a)
    ensures b in result <==> Reaches(ps, a, b)
  {
    ReachesSelf(ps, a);
    ReachesSelf(ps, b);
    assert [b][0] == b;
    if Reaches(ps, b, a) {
      assert Common(ps, a, [b], a);
      var m := MergeBaseAbove(ps, a, [b], a);
      ReachesAntisym(ps, m, a);
    }
    if Reaches(ps, a, b) {
      assert Common(ps, a, [b], b);
      var m := MergeBaseAbove(ps, a, [b], b);
      ReachesAntisym(ps, m, b);
    }
  }

  // ---------------------------------------------------------------- the pairwise repair

  datatype Slot = Null | Commit(id: nat)

  /** `rslt` still holds `base`, except for slots nulled because their commit is beaten; every pair
      before (`i`, `j`) in the scan is unrelated unless one of the two is null. */
  ghost predicate Repairing(ps: Parents, one: nat, twos: seq<nat>, base: seq<nat>, rslt: seq<Slot>, i: nat, j: nat) {
    && |rslt| == |base|
    && (forall k :: 0 <= k < |base| ==>
      rslt[k] == Commit(base[k]) || (rslt[k] == Null && Beaten(ps, one, twos, base[k])))
    && (forall a, b :: 0 <= a < b < |base| && (a < i || (a == i && b < j)) && rslt[a] != Null && rslt[b] != Null ==>
      !Reaches(ps, base[a], base[b]) && !Reaches(ps, base[b], base[a]))
  }

  lemma RepairPair(ps: Parents, one: nat, twos: seq<nat>, base: seq<nat>, rslt: seq<Slot>, i: nat, j: nat,
                   result: seq<nat>, rslt': seq<Slot>)
    requires Dag(ps) && Candidates(ps, one, twos, base) && Distinct(base)
    requires i < j < |base| && Repairing(ps, one, twos, base, rslt, i, j)
    requires rslt[i] != Null && rslt[j] != Null && base[i] < |ps| && base[j] < |ps|
    requires Candidates(ps, base[i], [base[j]], result)
    requires |rslt'| == |rslt| && forall k :: 0 <= k < |rslt| ==>
      rslt'[k] == if (k == i || k == j) && base[k] in result then Null else rslt[k]
    ensures Repairing(ps, one, twos, base, rslt', i, j + 1)
  {
    CandidateDecides(ps, base[i], base[j], result);
    assert Common(ps, one, twos, base[i]) && Common(ps, one, twos, base[j]);
  }

  lemma RepairedIsExact(ps: Parents, one: nat, twos: seq<nat>, base: seq<nat>, rslt: seq<Slot>, k: nat)
    requires Dag(ps) && Candidates(ps, one, twos, base) && Distinct(base)
    requires Repairing(ps, one, twos, base, rslt, |base|, 0) && k < |base|
    ensures rslt[k] != Null <==> MergeBase(ps, one, twos, base[k])
  {
    assert Common(ps, one, twos, base[k]);
    var m := MergeBaseAbove(ps, one, twos, base[k]);
    var l :| 0 <= l < |base| && base[l] == m;
    assert l < k || k < l || m == base[k];
  }

  lemma RepairStarts(ps: Parents, one: nat, twos: seq<nat>, base: seq<nat>, rslt: seq<Slot>)
    requires |rslt| == |base| && forall k :: 0 <= k < |base| ==> rslt[k] == Commit(base[k])
    ensures Repairing(ps, one, twos, base, rslt, 0, 1)
  {
  }

  lemma RepairNextRow(ps: Parents, one: nat, twos: seq<nat>, base: seq<nat>, rslt: seq<Slot>, i: nat)
    requires Repairing(ps, one, twos, base, rslt, i, |base|) && i < |base|
    ensures Repairing(ps, one, twos, base, rslt, i + 1, i + 2)
  {
  }

  lemma RepairDone(ps: Parents, one: nat, twos: seq<nat>, base: seq<nat>, rslt: seq<Slot>)
    requires |base| > 0 && Repairing(ps, one, twos, base, rslt, |base| - 1, |base|)
    ensures Repairing(ps, one, twos, base, rslt, |base|, 0)
  {
  }

  /** An ancestor is the merge base with its descendant, and only an ancestor is. */
  lemma AncestorIsBase(ps: Parents, a: nat, d: nat)
    requires Dag(ps) && a < |ps| && d < |ps|
    ensures MergeBase(ps, a, [d], a) <==> Reaches(ps, d, a)
  {
    ReachesSelf(ps, a);
    assert [d][0] == d;
    if Reaches(ps, d, a) {
      var m := MergeBaseAbove(ps, a, [d], a);
      ReachesAntisym(ps, m, a);
    }
  }

  // ---------------------------------------------------------------- head reduction

  /** No other listed head descends from `c`. */
  ghost predicate Independent(ps: Parents, heads: seq<nat>, c: nat) {
    forall h :: h in heads && h != c ==> !Reaches(ps, h, c)
  }

  /** The first `k` heads without repeats and without those another head reaches. */
  ghost function Reduced(ps: Parents, heads: seq<nat>, k: nat): seq<nat>
    requires k <= |heads|
  {
    if k == 0 then []
    else
      var r := Reduced(ps, heads, k - 1);
      var c := heads[k - 1];
      if c in r || !Independent(ps, heads, c) then r else r + [c]
  }

  lemma {:induction false} ReducedIsExact(ps: Parents, heads: seq<nat>, k: nat)
    requires k <= |heads|
    ensures forall c :: c in Reduced(ps, heads, k) <==> c in heads[..k] && Independent(ps, heads, c)
    ensures Distinct(Reduced(ps, heads, k))
  {
    if k > 0 {
      ReducedIsExact(ps, heads, k - 1);
      assert heads[..k] == heads[..k - 1] + [heads[k - 1]];
    }
  }

  /** With at least one other head, the merge bases of `c` and the others tell whether `c` is independent. */
  lemma BaseTellsIndependence(ps: Parents, heads: seq<nat>, others: seq<nat>, c: nat, base: seq<nat>)
    requires Dag(ps) && c < |ps|
    requires forall h :: h in others <==> h in heads && h != c
    requires forall x :: x in base <==> MergeBase(ps, c, others, x)
    ensures Independent(ps, heads, c) ==> c !in base
    ensures !Independent(ps, heads, c) ==> forall x :: x in base <==> x == c
  {
    ReachesSelf(ps, c);
    if c in base {
      var i :| 0 <= i < |others| && Reaches(ps, others[i], c);
      assert others[i] in others;
    }
    if !Independent(ps, heads, c) {
      var h :| h in heads && h != c && Reaches(ps, h, c);
      assert h in others;
      assert AncestorOfAny(ps, others, c);
      assert Common(ps, c, others, c);
      var m := MergeBaseAbove(ps, c, others, c);
      ReachesAntisym(ps, m, c);
    }
  }

  // ---------------------------------------------------------------- the code

  class History {
    const ps: Parents
    const dates: seq<nat>
    const flags: array<Flags>

    ghost predicate Valid() {
      Dag(ps) && |dates| == |ps| && flags.Length == |ps|
    }

    constructor (ps: Parents, dates: seq<nat>)
      requires Dag(ps) && |dates| == |ps|
      ensures Valid() && fresh(flags) && AllClear(flags[..])
      ensures this.ps == ps && this.dates == dates
    {
      this.ps, this.dates := ps, dates;
      flags := new Flags[|ps|](_ => CLEAR);
    }

    method ClearCommitMarks1(list: seq<nat>, c: nat, mark: Flags, ghost f0: seq<Flags>, ghost tip: nat)
      returns (rest: seq<nat>)
      requires Valid() && Clearing(ps, f0, flags[..], mark, tip, [c] + list)
      modifies flags
      ensures Clearing(ps, f0, flags[..], mark, tip, rest)
      ensures Touched(flags[..], mark) < Touched(old(flags[..]), mark)
        || (Touched(flags[..], mark) == Touched(old(flags[..]), mark) && rest == list)
    {
      rest := list;
      var commit := c;
      while true
        invariant Clearing(ps, f0, flags[..], mark, tip, [commit] + rest)
        invariant Touched(flags[..], mark) < Touched(old(flags[..]), mark)
          || (Touched(flags[..], mark) == Touched(old(flags[..]), mark) && rest == list)
        decreases Touched(flags[..], mark)
      {
        assert commit in [commit] + rest;
        ghost var f := flags[..];
        if !flags[commit].Touches(mark) {
          ClearingSkips(ps, f0, f, mark, tip, commit, rest);
          return;
        }
        flags[commit] := flags[commit].Without(mark);
        assert flags[..] == f[commit := f[commit].Without(mark)];
        ClearShrinks(f, mark, commit);
        var parents := ps[commit];
        ghost var before := rest;
        if |parents| == 0 {
          ClearingSteps(ps, f0, f, mark, tip, commit, before, rest);
          return;
        }
        rest := PushAll(parents[1..], rest);
        ClearingSteps(ps, f0, f, mark, tip, commit, before, [parents[0]] + rest);
        commit := parents[0];
      }
    }

    /** Pushes each element in turn on the front of `list`. */
    method PushAll(items: seq<nat>, list: seq<nat>) returns (r: seq<nat>)
      ensures forall x :: x in r <==> x in items || x in list
    {
      r := list;
      for i := 0 to |items|
        invariant forall x :: x in r <==> x in items[..i] || x in list
      {
        r := [items[i]] + r;
      }
    }

    /** Removes `mark` from exactly the commits `commit` reaches through marked commits. */
    method ClearCommitMarks(commit: nat, mark: Flags)
      requires Valid() && commit < |ps|
      modifies flags
      ensures flags[..] == Cleared(ps, old(flags[..]), mark, commit)
    {
      var list := [commit];
      ClearingStarts(ps, flags[..], mark, commit);
      while list != []
        invariant Clearing(ps, old(flags[..]), flags[..], mark, commit, list)
        decreases Touched(flags[..], mark), |list|
      {
        var c := list[0];
        assert list == [c] + list[1..];
        list := ClearCommitMarks1(list[1..], c, mark, old(flags[..]), commit);
      }
      ClearingEnds(ps, old(flags[..]), flags[..], mark, commit);
    }

    /** Is some queued commit still not stale? */
    method Interesting(list: seq<nat>) returns (b: bool)
      requires Valid() && InRange(dates, list)
      ensures b <==> exists x :: x in list && x < |ps| && !flags[x].stale
    {
      for i := 0 to |list|
        invariant forall x :: x in list[..i] ==> flags[x].stale
      {
        if !flags[list[i]].stale {
          assert list[i] in list;
          return true;
        }
      }
      assert list[..|list|] == list;
      return false;
    }

    /** Marks and queues the tips. */
    method PaintTips(one: nat, twos: seq<nat>) returns (list: seq<nat>)
      requires Valid() && one < |ps| && InRange(dates, twos) && one !in twos
      requires AllClear(flags[..])
      modifies flags
      ensures TipsOnly(one, twos, flags[..]) && InRange(dates, list) && NewestFirst(dates, list)
      ensures forall x :: x in list <==> x == one || x in twos
    {
      flags[one] := flags[one].(parent1 := true);
      list := InsertByDate(dates, one, []);
      for i := 0 to |twos|
        invariant TipsOnly(one, twos[..i], flags[..]) && InRange(dates, list) && NewestFirst(dates, list)
        invariant forall x :: x in list <==> x == one || x in twos[..i]
      {
        flags[twos[i]] := flags[twos[i]].(parent2 := true);
        list := InsertByDate(dates, twos[i], list);
        assert twos[..i + 1] == twos[..i] + [twos[i]];
      }
      assert twos[..|twos|] == twos;
    }

    /** Gives `p` the flags it lacks and queues it again. */
    method PaintOne(c: nat, p: nat, list: seq<nat>, ghost one: nat, ghost twos: seq<nat>, ghost result: seq<nat>)
      returns (longer: seq<nat>)
      requires Valid() && c < |ps| && p in ps[c] && p < |ps| && InRange(dates, list) && NewestFirst(dates, list)
      requires Painted(ps, one, twos, flags[..], [c] + list, result) && !flags[p].Covers(flags[c].Spread())
      modifies flags
      ensures InRange(dates, longer) && NewestFirst(dates, longer)
      ensures Painted(ps, one, twos, flags[..], [c] + longer, result)
      ensures flags[..] == old(flags[..][p := flags[p].Or(flags[c].Spread())])
      ensures Missing(flags[..]) < Missing(old(flags[..]))
    {
      ghost var f := flags[..];
      flags[p] := flags[p].Or(flags[c].Spread());
      longer := InsertByDate(dates, p, list);
      assert flags[..] == f[p := f[p].Or(f[c].Spread())];
      PaintParent(ps, one, twos, f, [c] + list, result, c, p, [c] + longer);
      PaintShrinks(f, p, f[c].Spread());
    }

    /** Hands the flags of the popped commit `c` to each parent that lacks some of them. */
    method PaintParents(c: nat, tail: seq<nat>, ghost one: nat, ghost twos: seq<nat>, ghost result: seq<nat>)
      returns (list: seq<nat>)
      requires Valid() && c < |ps| && InRange(dates, tail) && NewestFirst(dates, tail)
      requires Painted(ps, one, twos, flags[..], [c] + tail, result) && Found(flags[c])
      modifies flags
      ensures InRange(dates, list) && NewestFirst(dates, list)
      ensures Painted(ps, one, twos, flags[..], list, result)
      ensures Missing(flags[..]) < Missing(old(flags[..])) || (flags[..] == old(flags[..]) && list == tail)
    {
      hide Painted;
      list := tail;
      for i := 0 to |ps[c]|
        invariant InRange(dates, list) && NewestFirst(dates, list)
        invariant Painted(ps, one, twos, flags[..], [c] + list, result)
        invariant flags[c] == old(flags[c])
        invariant forall k :: 0 <= k < i ==> ps[c][k] < |ps| && flags[ps[c][k]].Covers(flags[c].Spread())
        invariant Missing(flags[..]) < Missing(old(flags[..])) || (flags[..] == old(flags[..]) && list == tail)
      {
        var p := ps[c][i];
        ParentIsProper(ps, c, p);
        if !flags[p].Covers(flags[c].Spread()) {
          list := PaintOne(c, p, list, one, twos, result);
        }
      }
      Popped(ps, one, twos, flags[..], c, list, result);
    }

    /** Records the commit at the head of the queue when both paints met there for the first time. */
    method RecordBase(c: nat, result: seq<nat>, ghost one: nat, ghost twos: seq<nat>, ghost q: seq<nat>)
      returns (more: seq<nat>)
      requires Valid() && c < |ps| && InRange(dates, result) && NewestFirst(dates, result)
      requires Painted(ps, one, twos, flags[..], q, result)
      modifies flags
      ensures InRange(dates, more) && NewestFirst(dates, more)
      ensures Painted(ps, one, twos, flags[..], q, more) && Found(flags[c])
      ensures Missing(flags[..]) == Missing(old(flags[..]))
    {
      more := result;
      if flags[c].parent1 && flags[c].parent2 && !flags[c].stale {
        if !flags[c].result {
          ghost var f := flags[..];
          flags[c] := flags[c].(result := true);
          more := InsertByDate(dates, c, result);
          assert flags[..] == f[c := f[c].(result := true)];
          RecordFound(ps, one, twos, f, q, result, c, more);
          RecordKeepsMissing(f, c);
        }
      }
    }

    /** The common ancestors left after painting down from both sides: every merge base is among them,
        whatever the dates say.  Every mark left behind is connected to a tip by marks. */
    method MergeBasesMany(one: nat, twos: seq<nat>) returns (result: seq<nat>)
      requires Valid() && one < |ps| && InRange(dates, twos) && AllClear(flags[..])
      modifies flags
      ensures Candidates(ps, one, twos, result) && Distinct(result)
      ensures InRange(dates, result) && NewestFirst(dates, result)
      ensures Rooted(ps, [one] + twos, flags[..])
      ensures one in twos ==> flags[..] == old(flags[..]) && result == [one]
    {
      hide Painted, Common, MergeBase;
      result := [];
      for i := 0 to |twos|
        invariant one !in twos[..i]
      {
        if one == twos[i] {
          SelfIsOnlyBase(ps, one, twos);
          return [one];
        }
      }
      assert twos[..|twos|] == twos;
      var list: seq<nat> := PaintTips(one, twos);
      StartPainted(ps, one, twos, flags[..], list);
      var more := Interesting(list);
      while more
        invariant InRange(dates, list) && NewestFirst(dates, list)
        invariant InRange(dates, result) && NewestFirst(dates, result)
        invariant Painted(ps, one, twos, flags[..], list, result)
        invariant more <==> exists x :: x in list && x < |ps| && !flags[x].stale
        decreases Missing(flags[..]), |list|
      {
        var c, tail := list[0], list[1..];
        assert list == [c] + tail;
        result := RecordBase(c, result, one, twos, list);
        list := PaintParents(c, tail, one, twos, result);
        more := Interesting(list);
      }
      result := DropStale(result, one, twos, list);
    }

    /** Rebuilds the result without the commits found to be stale after they were recorded. */
    method DropStale(list: seq<nat>, ghost one: nat, ghost twos: seq<nat>, ghost q: seq<nat>)
      returns (result: seq<nat>)
      requires Valid() && InRange(dates, list) && Painted(ps, one, twos, flags[..], q, list)
      requires forall x :: x in q ==> x < |ps| && flags[x].stale
      ensures Candidates(ps, one, twos, result) && Distinct(result) && Rooted(ps, [one] + twos, flags[..])
      ensures InRange(dates, result) && NewestFirst(dates, result)
    {
      result := [];
      for i := 0 to |list|
        invariant InRange(dates, result) && NewestFirst(dates, result) && Distinct(result)
        invariant forall x :: x in result <==> x in list[..i] && !flags[x].stale
      {
        if !flags[list[i]].stale {
          result := InsertByDate(dates, list[i], result);
        }
        assert list[..i + 1] == list[..i] + [list[i]];
      }
      assert list[..|list|] == list;
      forall m | MergeBase(ps, one, twos, m)
        ensures m in result
      {
        MergeBaseRecorded(ps, one, twos, flags[..], q, list, m);
      }
      assert forall c :: c in result ==> SoundAt(ps, one, twos, flags[c], c);
    }

    /** Clears every merge-base flag starting from each tip. */
    method ClearTips(one: nat, twos: seq<nat>)
      requires Valid() && one < |ps| && InRange(dates, twos) && Rooted(ps, [one] + twos, flags[..])
      modifies flags
      ensures AllClear(flags[..])
    {
      ghost var f := flags[..];
      ClearCommitMarks(one, ALL_FLAGS);
      ClearedFromAppend(ps, f, ALL_FLAGS, [], one);
      assert [] + [one] == [one] + twos[..0];
      for i := 0 to |twos|
        invariant flags[..] == ClearedFrom(ps, f, ALL_FLAGS, [one] + twos[..i])
      {
        ClearCommitMarks(twos[i], ALL_FLAGS);
        ClearedFromAppend(ps, f, ALL_FLAGS, [one] + twos[..i], twos[i]);
        assert [one] + twos[..i] + [twos[i]] == [one] + twos[..i + 1];
      }
      assert twos[..|twos|] == twos;
      ClearingLeavesNothing(ps, [one] + twos, f);
    }

    /** Drops whichever of two candidates is an ancestor of the other. */
    method RepairOne(rslt: array<Slot>, i: nat, j: nat, ghost one: nat, ghost twos: seq<nat>, ghost base: seq<nat>)
      requires Valid() && rslt as object != flags && AllClear(flags[..])
      requires Candidates(ps, one, twos, base) && Distinct(base) && InRange(dates, base)
      requires i < j < rslt.Length && Repairing(ps, one, twos, base, rslt[..], i, j)
      modifies flags, rslt
      ensures AllClear(flags[..]) && Repairing(ps, one, twos, base, rslt[..], i, j + 1)
    {
      if rslt[i] == Null || rslt[j] == Null {
        return;
      }
      ghost var before := rslt[..];
      var a, b := rslt[i].id, rslt[j].id;
      assert a == base[i] && b == base[j];
      var result := MergeBasesMany(a, [b]);
      ClearTips(a, [b]);
      for k := 0 to |result|
        invariant AllClear(flags[..])
        invariant forall m :: 0 <= m < rslt.Length ==>
          rslt[m] == if (m == i || m == j) && base[m] in result[..k] then Null else before[m]
      {
        if rslt[i] == Commit(result[k]) { rslt[i] := Null; }
        if rslt[j] == Commit(result[k]) { rslt[j] := Null; }
        assert result[..k + 1] == result[..k] + [result[k]];
      }
      assert result[..|result|] == result;
      RepairPair(ps, one, twos, base, before, i, j, result, rslt[..]);
    }

    method Repair(base: seq<nat>, ghost one: nat, ghost twos: seq<nat>) returns (rslt: array<Slot>)
      requires Valid() && AllClear(flags[..])
      requires Candidates(ps, one, twos, base) && Distinct(base) && InRange(dates, base) && |base| > 1
      modifies flags
      ensures AllClear(flags[..]) && fresh(rslt)
      ensures Repairing(ps, one, twos, base, rslt[..], |base|, 0)
    {
      hide Candidates, Repairing;
      rslt := new Slot[|base|](k requires 0 <= k < |base| => Commit(base[k]));
      RepairStarts(ps, one, twos, base, rslt[..]);
      for i := 0 to |base| - 1
        invariant AllClear(flags[..]) && rslt.Length == |base|
        invariant Repairing(ps, one, twos, base, rslt[..], i, i + 1)
      {
        for j := i + 1 to |base|
          invariant AllClear(flags[..]) && rslt.Length == |base|
          invariant Repairing(ps, one, twos, base, rslt[..], i, j)
        {
          RepairOne(rslt, i, j, one, twos, base);
        }
        RepairNextRow(ps, one, twos, base, rslt[..], i);
      }
      RepairDone(ps, one, twos, base, rslt[..]);
    }

    /** Exactly the merge bases, newest first; with `cleanup`, no mark is left anywhere. */
    method GetMergeBasesMany(one: nat, twos: seq<nat>, cleanup: bool) returns (result: seq<nat>)
      requires Valid() && one < |ps| && InRange(dates, twos) && AllClear(flags[..])
      modifies flags
      ensures forall c :: c in result <==> MergeBase(ps, one, twos, c)
      ensures Distinct(result) && InRange(dates, result) && NewestFirst(dates, result)
      ensures cleanup ==> AllClear(flags[..])
    {
      hide Candidates, Repairing, MergeBase;
      result := MergeBasesMany(one, twos);
      for i := 0 to |twos| {
        if one == twos[i] {
          OneCandidateIsExact(ps, one, twos, result);
          return;
        }
      }
      if |result| <= 1 {
        OneCandidateIsExact(ps, one, twos, result);
        if cleanup {
          ClearTips(one, twos);
        }
        return;
      }
      ClearTips(one, twos);
      var rslt := Repair(result, one, twos);
      result := Survivors(rslt, one, twos, result);
    }

    method Survivors(rslt: array<Slot>, ghost one: nat, ghost twos: seq<nat>, ghost base: seq<nat>)
      returns (result: seq<nat>)
      requires Valid() && Candidates(ps, one, twos, base) && Distinct(base) && InRange(dates, base)
      requires Repairing(ps, one, twos, base, rslt[..], |base|, 0)
      ensures forall c :: c in result <==> MergeBase(ps, one, twos, c)
      ensures Distinct(result) && InRange(dates, result) && NewestFirst(dates, result)
    {
      hide MergeBase;
      result := [];
      for i := 0 to rslt.Length
        invariant InRange(dates, result) && NewestFirst(dates, result) && Distinct(result)
        invariant forall c :: c in result <==> c in base[..i] && MergeBase(ps, one, twos, c)
      {
        RepairedIsExact(ps, one, twos, base, rslt[..], i);
        if rslt[i] != Null {
          result := InsertByDate(dates, rslt[i].id, result);
        }
        assert base[..i + 1] == base[..i] + [base[i]];
      }
      assert base[..|base|] == base;
    }

    /** Is `commit` an ancestor of `reference` (or the same commit)? */
    method InMergeBases(commit: nat, reference: nat) returns (ret: bool)
      requires Valid() && commit < |ps| && reference < |ps| && AllClear(flags[..])
      modifies flags
      ensures ret <==> Reaches(ps, reference, commit)
      ensures AllClear(flags[..])
    {
      var bases := GetMergeBasesMany(commit, [reference], true);
      AncestorIsBase(ps, commit, reference);
      ret := false;
      for i := 0 to |bases|
        invariant commit !in bases[..i]
      {
        if bases[i] == commit {
          return true;
        }
      }
      assert bases[..|bases|] == bases;
    }

    /** Does `commit` descend from (or equal) one of the listed commits?  An empty list always passes. */
    method IsDescendantOf(commit: nat, withCommit: seq<nat>) returns (ret: bool)
      requires Valid() && commit < |ps| && InRange(dates, withCommit) && AllClear(flags[..])
      modifies flags
      ensures ret <==> withCommit == [] || exists w :: w in withCommit && Reaches(ps, commit, w)
      ensures AllClear(flags[..])
    {
      if withCommit == [] {
        return true;
      }
      for i := 0 to |withCommit|
        invariant AllClear(flags[..])
        invariant forall k :: 0 <= k < i ==> !Reaches(ps, commit, withCommit[k])
      {
        var r := InMergeBases(withCommit[i], commit);
        if r {
          return true;
        }
      }
      return false;
    }

    /** The heads that no other head reaches, once each, in order of first appearance. */
    method ReduceHeads(heads: seq<nat>) returns (result: seq<nat>)
      requires Valid() && InRange(dates, heads) && AllClear(flags[..])
      modifies flags
      ensures result == Reduced(ps, heads, |heads|)
      ensures AllClear(flags[..])
    {
      result := [];
      for i := 0 to |heads|
        invariant AllClear(flags[..]) && result == Reduced(ps, heads, i)
      {
        var c := heads[i];
        if c !in result {
          var other := Others(heads, c);
          var base := [];
          if |other| > 0 {
            base := GetMergeBasesMany(c, other, true);
            BaseTellsIndependence(ps, heads, other, c, base);
          }
          assert Independent(ps, heads, c) <==> c !in base;
          assert base != [] ==> base[0] in base;
          if base == [] || base[0] != c {
            result := result + [c];
          }
        }
      }
    }

    method Others(heads: seq<nat>, c: nat) returns (other: seq<nat>)
      requires Valid() && InRange(dates, heads)
      ensures InRange(dates, other) && forall h :: h in other <==> h in heads && h != c
    {
      other := [];
      for i := 0 to |heads|
        invariant InRange(dates, other) && forall h :: h in other <==> h in heads[..i] && h != c
      {
        if heads[i] != c {
          other := other + [heads[i]];
        }
        assert heads[..i + 1] == heads[..i] + [heads[i]];
      }
      assert heads[..|heads|] == heads;
    }
  }
}
