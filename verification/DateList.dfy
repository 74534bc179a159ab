/** Commit lists kept newest first (commit.c, `commit_list_insert_by_date`). */
module DateList {
  import opened CommitGraph

  ghost predicate InRange(dates: seq<nat>, list: seq<nat>) {
    forall i :: 0 <= i < |list| ==> list[i] < |dates|
  }

  ghost predicate NewestFirst(dates: seq<nat>, list: seq<nat>)
    requires InRange(dates, list)
  {
    forall i, j :: 0 <= i < j < |list| ==> dates[list[i]] >= dates[list[j]]
  }

  function Splice(list: seq<nat>, k: nat, c: nat): (r: seq<nat>)
    requires k <= |list|
    ensures |r| == |list| + 1 && r[k] == c
    ensures forall i :: 0 <= i < k ==> r[i] == list[i]
    ensures forall i :: k < i < |r| ==> r[i] == list[i - 1]
  {
    list[..k] + [c] + list[k..]
  }

  lemma SpliceElements(list: seq<nat>, k: nat, c: nat)
    requires k <= |list|
    ensures multiset(Splice(list, k, c)) == multiset(list) + multiset{c}
  {
    assert list == list[..k] + list[k..];
  }

  lemma SpliceDistinct(list: seq<nat>, k: nat, c: nat)
    requires k <= |list| && Distinct(list) && c !in list
    ensures Distinct(Splice(list, k, c))
  {
    var r := Splice(list, k, c);
    forall i, j | 0 <= i < j < |r|
      ensures r[i] != r[j]
    {
      if i == k || j == k {
      } else {
        var i', j' := if i < k then i else i - 1, if j < k then j else j - 1;
        assert r[i] == list[i'] && r[j] == list[j'];
      }
    }
  }

  ghost predicate DatePosition(dates: seq<nat>, list: seq<nat>, k: nat, c: nat)
    requires c < |dates| && InRange(dates, list)
  {
    && k <= |list|
    && (forall i :: 0 <= i < k ==> dates[list[i]] >= dates[c])
    && (k < |list| ==> dates[list[k]] < dates[c])
  }

  lemma SpliceSorted(dates: seq<nat>, list: seq<nat>, k: nat, c: nat)
    requires c < |dates| && InRange(dates, list) && NewestFirst(dates, list)
    requires DatePosition(dates, list, k, c)
    ensures InRange(dates, Splice(list, k, c)) && NewestFirst(dates, Splice(list, k, c))
  {
    var r := Splice(list, k, c);
    assert forall i :: k < i < |r| ==> dates[r[i]] <= dates[list[k]];
  }

  ghost predicate Inserted(dates: seq<nat>, c: nat, list: seq<nat>, r: seq<nat>)
    requires c < |dates| && InRange(dates, list)
  {
    && InRange(dates, r)
    && multiset(r) == multiset(list) + multiset{c}
    && (forall x :: x in r <==> x == c || x in list)
    && (NewestFirst(dates, list) ==> NewestFirst(dates, r))
    && (Distinct(list) && c !in list ==> Distinct(r))
  }

  lemma SplicedByDate(dates: seq<nat>, list: seq<nat>, k: nat, c: nat)
    requires c < |dates| && InRange(dates, list)
    requires DatePosition(dates, list, k, c)
    ensures Inserted(dates, c, list, Splice(list, k, c))
  {
    var r := Splice(list, k, c);
    SpliceElements(list, k, c);
    forall x
      ensures x in r <==> x == c || x in list
    {
      assert x in r <==> x in multiset(r);
    }
    if NewestFirst(dates, list) {
      SpliceSorted(dates, list, k, c);
    }
    if Distinct(list) && c !in list {
      SpliceDistinct(list, k, c);
    }
  }

  /** Puts `c` in front of the first strictly older commit. */
  method InsertByDate(dates: seq<nat>, c: nat, list: seq<nat>) returns (r: seq<nat>)
    requires c < |dates| && InRange(dates, list)
    ensures exists k :: DatePosition(dates, list, k, c) && r == Splice(list, k, c)
    ensures Inserted(dates, c, list, r)
  {
    var k := 0;
    while k < |list| && dates[list[k]] >= dates[c]
      invariant 0 <= k <= |list|
      invariant forall i :: 0 <= i < k ==> dates[list[i]] >= dates[c]
    {
      k := k + 1;
    }
    r := Splice(list, k, c);
    SplicedByDate(dates, list, k, c);
  }
}
