/** The tables of rename sources and destinations, and their books (diffcore-rename.c:10-92, 201-222). */
module RenameTables {
  import opened Common
  import opened Strings
  import opened RenameSpec

  /** A destination and the source it is matched with, by its place in the queue. */
  datatype Dst = Dst(two: FileSpec, pair: Option<nat>)

  function DstPaths(dst: seq<Dst>): (r: seq<string>)
    ensures |r| == |dst| && forall k :: 0 <= k < |dst| ==> r[k] == dst[k].two.path
  {
    seq(|dst|, k requires 0 <= k < |dst| => dst[k].two.path)
  }

  ghost predicate InQueue(q: seq<Pair>, src: seq<nat>) {
    forall k :: 0 <= k < |src| ==> src[k] < |q|
  }

  function SrcPaths(q: seq<Pair>, src: seq<nat>): (r: seq<string>)
    requires forall k :: 0 <= k < |src| ==> src[k] < |q|
    ensures |r| == |src| && forall k :: 0 <= k < |src| ==> r[k] == q[src[k]].one.path
  {
    seq(|src|, k requires 0 <= k < |src| => q[src[k]].one.path)
  }

  /** Binary search: `path` is at `at`, or belongs there. */
  method Search(paths: seq<string>, path: string) returns (found: bool, at: nat)
    requires Ascending(paths)
    ensures at <= |paths|
    ensures if found then at < |paths| && paths[at] == path else Between(paths, path, at)
  {
    hide StrCmp;
    var first, last: nat := 0, |paths|;
    while last > first
      invariant first <= last <= |paths|
      invariant forall k :: 0 <= k < first ==> StrCmp(paths[k], path) < 0
      invariant forall k :: last <= k < |paths| ==> StrCmp(path, paths[k]) < 0
    {
      var next := (last + first) / 2;
      var cmp := StrCmp(path, paths[next]);
      CmpFacts(path, paths[next]);
      CmpFacts(paths[next], path);
      if cmp == 0 {
        return true, next;
      }
      if cmp < 0 {
        forall k | next < k < |paths|
          ensures StrCmp(path, paths[k]) < 0
        {
          CmpTrans(path, paths[next], paths[k]);
        }
        last := next;
        continue;
      }
      forall k | 0 <= k < next
        ensures StrCmp(paths[k], path) < 0
      {
        CmpTrans(paths[k], paths[next], path);
      }
      first := next + 1;
    }
    return false, first;
  }

  // ---------------------------------------------------------------- the books

  /** The destinations matched with source `i`. */
  ghost function Claimed(dst: seq<Dst>, i: nat): set<string> {
    set k | 0 <= k < |dst| && dst[k].pair == Some(i) :: dst[k].two.path
  }

  /** A pair whose old side may be a source: a deletion, or with copies any pair that has an old side. */
  predicate IsSource(copy: bool, p: Pair) {
    Valid(p.one) && (copy || !Valid(p.two))
  }

  /** A registered source that stays in place counts as its own user. */
  function SelfUse(copy: bool, q: seq<Pair>, src: seq<nat>, i: nat): nat
    requires i < |q|
  {
    if i in src && Valid(q[i].two) then 1 else 0
  }

  predicate SamePost(a: FileSpec, b: FileSpec) {
    a.path == b.path && a.mode == b.mode && a.sha == b.sha
  }

  ghost predicate IsCreated(q: seq<Pair>, two: FileSpec) {
    exists i :: 0 <= i < |q| && Creation(q[i]) && SamePost(two, q[i].two)
  }

  /** Sorted tables of sources and of created files. */
  ghost predicate TablesOk(q: seq<Pair>, copy: bool, dst: seq<Dst>, src: seq<nat>) {
    && InQueue(q, src) && Ascending(DstPaths(dst)) && Ascending(SrcPaths(q, src))
    && (forall k :: 0 <= k < |src| ==> IsSource(copy, q[src[k]]))
    && (forall k :: 0 <= k < |dst| ==> IsCreated(q, dst[k].two))
  }

  /** Matches name registered sources of the same file type. */
  ghost predicate MatchesOk(q: seq<Pair>, dst: seq<Dst>, src: seq<nat>) {
    forall k :: 0 <= k < |dst| && dst[k].pair.Some? ==>
      dst[k].pair.value in src && dst[k].pair.value < |q|
      && Type(q[dst[k].pair.value].one.mode) == Type(dst[k].two.mode)
  }

  /** Every use count is the number of matches, and one more for a source that stays; without copies a source
      is matched at most once. */
  ghost predicate Counted(q: seq<Pair>, copy: bool, used: seq<nat>, dst: seq<Dst>, src: seq<nat>) {
    && |used| == |q|
    && forall i :: 0 <= i < |q| ==>
      used[i] == SelfUse(copy, q, src, i) + |Claimed(dst, i)| && (!copy ==> |Claimed(dst, i)| <= 1)
  }

  function Matched(dst: seq<Dst>): nat {
    if dst == [] then 0 else Matched(dst[..|dst| - 1]) + if dst[|dst| - 1].pair.Some? then 1 else 0
  }

  lemma {:induction false} MatchedFits(dst: seq<Dst>, k: nat)
    requires k <= |dst|
    ensures Matched(dst[..k]) <= Matched(dst) <= Matched(dst[..k]) + (|dst| - k)
    ensures Matched(dst[..k]) <= k
    decreases |dst|
  {
    if k < |dst| {
      MatchedFits(dst[..|dst| - 1], k);
      assert dst[..|dst| - 1][..k] == dst[..k];
    } else {
      assert dst[..k] == dst;
      if dst != [] {
        MatchedFits(dst[..k - 1], k - 1);
        assert dst[..k - 1][..k - 1] == dst[..k - 1];
      }
    }
  }

  lemma {:induction false} MatchOneMore(dst: seq<Dst>, k: nat, d: Dst)
    requires k < |dst| && dst[k].pair.None? && d.pair.Some?
    ensures Matched(dst[k := d]) == Matched(dst) + 1
  {
    var n := |dst| - 1;
    if k == n {
      assert dst[k := d][..n] == dst[..n];
    } else {
      MatchOneMore(dst[..n], k, d);
      assert dst[k := d][..n] == dst[..n][k := d];
    }
  }

  /** Matching a destination adds it to its source's, and to no other's. */
  lemma ClaimOne(dst: seq<Dst>, k: nat, i: nat, j: nat)
    requires k < |dst| && dst[k].pair.None? && Ascending(DstPaths(dst))
    ensures |Claimed(dst[k := dst[k].(pair := Some(i))], j)| == |Claimed(dst, j)| + if i == j then 1 else 0
  {
    hide StrCmp, Ascending;
    var dst' := dst[k := dst[k].(pair := Some(i))];
    forall m | 0 <= m < |dst| && dst[m].two.path == dst[k].two.path
      ensures m == k
    {
      AscendingDistinct(DstPaths(dst), m, k);
    }
    assert dst[k].two.path !in Claimed(dst, j);
    assert forall m :: 0 <= m < |dst| ==> dst'[m] == if m == k then Dst(dst[k].two, Some(i)) else dst[m];
    forall x | x in Claimed(dst, j)
      ensures x in Claimed(dst', j)
    {
      var m :| 0 <= m < |dst| && dst[m].pair == Some(j) && dst[m].two.path == x;
      assert dst'[m].pair == Some(j);
    }
    if i == j {
      assert dst'[k].pair == Some(j);
      assert Claimed(dst', j) == Claimed(dst, j) + {dst[k].two.path};
    } else {
      assert Claimed(dst', j) == Claimed(dst, j);
    }
  }

  /** Everything the tables promise. */
  ghost predicate Books(q: seq<Pair>, copy: bool, used: seq<nat>, dst: seq<Dst>, src: seq<nat>) {
    TablesOk(q, copy, dst, src) && MatchesOk(q, dst, src) && Counted(q, copy, used, dst, src)
  }

  lemma MatchKeepsBooks(q: seq<Pair>, copy: bool, used: seq<nat>, dst: seq<Dst>, src: seq<nat>, k: nat, i: nat)
    requires Books(q, copy, used, dst, src) && k < |dst| && dst[k].pair.None? && i in src && i < |q|
    requires Type(q[i].one.mode) == Type(dst[k].two.mode) && (!copy ==> used[i] == 0)
    ensures Books(q, copy, used[i := used[i] + 1], dst[k := dst[k].(pair := Some(i))], src)
  {
    hide StrCmp, Ascending, IsCreated, Claimed;
    var used', dst' := used[i := used[i] + 1], dst[k := dst[k].(pair := Some(i))];
    assert DstPaths(dst') == DstPaths(dst);
    forall j | 0 <= j < |q|
      ensures used'[j] == SelfUse(copy, q, src, j) + |Claimed(dst', j)| && (!copy ==> |Claimed(dst', j)| <= 1)
    {
      ClaimOne(dst, k, i, j);
    }
  }
}
