/** File pairs, and what rename detection makes of them (diffcore.h:27-84, diff.c:3914-3944). */
module RenameSpec {
  import opened Strings

  type Sha = nat

  /** A file on one side; mode 0 stands for no file. */
  datatype FileSpec = FileSpec(path: string, mode: nat, sha: Sha, shaValid: bool, dirty: bool)

  datatype Pair = Pair(one: FileSpec, two: FileSpec)

  predicate Valid(s: FileSpec) {
    s.mode != 0
  }

  /** The type bits of a mode. */
  function Type(mode: nat): nat {
    mode / 0x1000 % 0x10
  }

  predicate IsRegular(s: FileSpec) {
    Type(s.mode) == 8
  }

  predicate Creation(p: Pair) {
    !Valid(p.one) && Valid(p.two)
  }

  predicate Deletion(p: Pair) {
    Valid(p.one) && !Valid(p.two)
  }

  /** Nothing to show: the same path, mode and contents on both sides, or both from the work tree. */
  predicate Unmodified(p: Pair) {
    && Valid(p.one) == Valid(p.two) && p.one.mode == p.two.mode && p.one.path == p.two.path
    && ((p.one.shaValid && p.two.shaValid && p.one.sha == p.two.sha && !p.one.dirty && !p.two.dirty)
     || (!p.one.shaValid && !p.two.shaValid))
  }

  /** A queue of plain changes: one pair a path, neither unmerged nor broken. */
  ghost predicate WfQueue(q: seq<Pair>) {
    && (forall i :: 0 <= i < |q| ==> q[i].one.path == q[i].two.path && (Valid(q[i].one) || Valid(q[i].two)))
    && (forall i, j :: 0 <= i < j < |q| ==> q[i].two.path != q[j].two.path)
  }

  // ---------------------------------------------------------------- basenames

  /** The part after the last slash. */
  function Base(path: string): string {
    if path == "" || path[|path| - 1] == '/' then "" else Base(path[..|path| - 1]) + [path[|path| - 1]]
  }

  /** Comparing from the end until a slash or a difference. */
  method BasenameSame(src: string, dst: string) returns (same: bool)
    ensures same <==> Base(src) == Base(dst)
  {
    hide Base;
    var srcLen, dstLen: nat := |src|, |dst|;
    assert src[..srcLen] == src && dst[..dstLen] == dst;
    ghost var tail := "";
    assert Base(src) == Base(src) + tail && Base(dst) == Base(dst) + tail;
    while srcLen != 0 && dstLen != 0
      invariant srcLen <= |src| && dstLen <= |dst|
      invariant Base(src) == Base(src[..srcLen]) + tail && Base(dst) == Base(dst[..dstLen]) + tail
      decreases srcLen
    {
      BaseStep(src, srcLen);
      BaseStep(dst, dstLen);
      LastDiffers(Base(src[..srcLen]), Base(dst[..dstLen]), tail);
      srcLen := srcLen - 1;
      dstLen := dstLen - 1;
      var c1, c2 := src[srcLen], dst[dstLen];
      if c1 != c2 {
        NotSameEnd(Base(src[..srcLen]), c1, Base(dst[..dstLen]), c2);
        return false;
      }
      if c1 == '/' {
        return true;
      }
      assert Base(src[..srcLen]) + [c1] + tail == Base(src[..srcLen]) + ([c1] + tail);
      assert Base(dst[..dstLen]) + [c1] + tail == Base(dst[..dstLen]) + ([c1] + tail);
      tail := [c1] + tail;
    }
    BaseEnds(src, srcLen);
    BaseEnds(dst, dstLen);
    LastDiffers(Base(src[..srcLen]), Base(dst[..dstLen]), tail);
    return (srcLen == 0 || src[srcLen - 1] == '/') && (dstLen == 0 || dst[dstLen - 1] == '/');
  }

  lemma BaseStep(path: string, n: nat)
    requires 0 < n <= |path|
    ensures Base(path[..n]) == if path[n - 1] == '/' then "" else Base(path[..n - 1]) + [path[n - 1]]
  {
    assert path[..n][..n - 1] == path[..n - 1];
  }

  lemma BaseEnds(path: string, n: nat)
    requires n <= |path|
    ensures Base(path[..n]) == "" <==> n == 0 || path[n - 1] == '/'
    ensures n == 0 ==> Base(path[..n]) == ""
  {
    if n > 0 { BaseStep(path, n); }
  }

  lemma NotSameEnd(a: string, c: char, b: string, d: char)
    requires c != d
    ensures a + [c] != b + [d]
  {
    if |a| == |b| { assert (a + [c])[|a|] != (b + [d])[|b|]; }
  }

  lemma LastDiffers(a: string, b: string, tail: string)
    ensures a + tail == b + tail <==> a == b
  {
    if a + tail == b + tail {
      assert |a| == |b|;
      assert (a + tail)[..|a|] == a && (b + tail)[..|b|] == b;
    }
  }

  // ---------------------------------------------------------------- candidates

  const MAX_SCORE := 60000
  const DEFAULT_RENAME_SCORE := 30000
  const NUM_CANDIDATE_PER_DST := 4

  /** A candidate; `dst` is negative in an unused place. */
  datatype Score = Score(src: nat, dst: int, score: nat, name: nat)

  const UNUSED := Score(0, -1, 0, 0)

  /** Descending scores, then basenames, unused ones last. */
  function ScoreCompare(a: Score, b: Score): int {
    if a.dst < 0 then if 0 <= b.dst then 1 else 0
    else if b.dst < 0 then -1
    else if a.score == b.score then b.name - a.name
    else b.score - a.score
  }

  lemma ScoreTrans(a: Score, b: Score, c: Score)
    requires ScoreCompare(a, b) <= 0 && ScoreCompare(b, c) <= 0
    ensures ScoreCompare(a, c) <= 0
  {
  }

  lemma ScoreTotal(a: Score, b: Score)
    ensures ScoreCompare(a, b) > 0 <==> ScoreCompare(b, a) < 0
  {
  }

  ghost predicate Sorted(mx: seq<Score>) {
    forall i, j :: 0 <= i < j < |mx| ==> ScoreCompare(mx[i], mx[j]) <= 0
  }

  function InsertScore(mx: seq<Score>, x: Score): (r: seq<Score>)
    ensures |r| == |mx| + 1
  {
    if mx == [] || ScoreCompare(mx[|mx| - 1], x) <= 0 then mx + [x]
    else InsertScore(mx[..|mx| - 1], x) + [mx[|mx| - 1]]
  }

  lemma {:induction false} InsertSorts(mx: seq<Score>, x: Score)
    requires Sorted(mx)
    ensures Sorted(InsertScore(mx, x)) && multiset(InsertScore(mx, x)) == multiset(mx) + multiset{x}
  {
    hide ScoreCompare;
    var r := InsertScore(mx, x);
    if mx == [] || ScoreCompare(mx[|mx| - 1], x) <= 0 {
      forall i | 0 <= i < |mx|
        ensures ScoreCompare(mx[i], x) <= 0
      {
        if i < |mx| - 1 { ScoreTrans(mx[i], mx[|mx| - 1], x); }
      }
    } else {
      var rest, last := mx[..|mx| - 1], mx[|mx| - 1];
      assert mx == rest + [last];
      InsertSorts(rest, x);
      ScoreTotal(last, x);
      var r' := InsertScore(rest, x);
      forall i | 0 <= i < |r'|
        ensures ScoreCompare(r'[i], last) <= 0
      {
        assert r'[i] in multiset(r');
        if r'[i] != x {
          assert r'[i] in multiset(rest);
        }
      }
    }
  }

  /** Stands for the library's sort. */
  method SortScores(mx: seq<Score>) returns (r: seq<Score>)
    ensures Sorted(r) && multiset(r) == multiset(mx)
  {
    r := [];
    for i := 0 to |mx|
      invariant Sorted(r) && multiset(r) == multiset(mx[..i])
    {
      InsertSorts(r, mx[i]);
      assert mx[..i + 1] == mx[..i] + [mx[i]];
      r := InsertScore(r, mx[i]);
    }
    assert mx[..|mx|] == mx;
  }

  /** The candidates kept for one destination are the best of those seen. */
  ghost predicate KeepsBest(m: seq<Score>, seen: seq<Score>) {
    forall o :: o in seen ==> o in m || forall k :: 0 <= k < |m| ==> ScoreCompare(m[k], o) <= 0
  }

  ghost predicate Replaced(m: seq<Score>, m': seq<Score>, w: nat, o: Score) {
    w < |m| && m' == m[w := o]
  }

  /** Replaces the worst candidate kept when the new one is better. */
  method RecordIfBetter(mx: array<Score>, at: nat, o: Score, ghost seen: seq<Score>)
    requires at + NUM_CANDIDATE_PER_DST <= mx.Length
    requires KeepsBest(mx[at..at + NUM_CANDIDATE_PER_DST], seen)
    modifies mx
    ensures KeepsBest(mx[at..at + NUM_CANDIDATE_PER_DST], seen + [o])
    ensures forall k :: 0 <= k < mx.Length && !(at <= k < at + NUM_CANDIDATE_PER_DST) ==> mx[k] == old(mx[k])
    ensures var m, m' := old(mx[at..at + NUM_CANDIDATE_PER_DST]), mx[at..at + NUM_CANDIDATE_PER_DST];
      m' == m || exists w :: Replaced(m, m', w, o)
  {
    hide ScoreCompare, KeepsBest;
    ghost var all := mx[..];
    ghost var m := mx[at..at + NUM_CANDIDATE_PER_DST];
    var worst := at;
    SelfNotWorse(mx[at]);
    for i := at + 1 to at + NUM_CANDIDATE_PER_DST
      invariant at <= worst < i && mx[..] == all
      invariant forall k :: at <= k < i ==> ScoreCompare(mx[k], mx[worst]) <= 0
    {
      SelfNotWorse(mx[i]);
      if ScoreCompare(mx[i], mx[worst]) > 0 {
        ScoreTotal(mx[i], mx[worst]);
        forall k | at <= k < i
          ensures ScoreCompare(mx[k], mx[i]) <= 0
        {
          ScoreTrans(mx[k], mx[worst], mx[i]);
        }
        worst := i;
      }
    }
    assert forall k :: 0 <= k < NUM_CANDIDATE_PER_DST ==> m[k] == mx[at + k];
    ScoreTotal(mx[worst], o);
    if ScoreCompare(mx[worst], o) > 0 {
      ReplaceWorst(m, worst - at, o, seen);
      mx[worst] := o;
      assert mx[at..at + NUM_CANDIDATE_PER_DST] == m[worst - at := o];
      assert Replaced(m, mx[at..at + NUM_CANDIDATE_PER_DST], worst - at, o);
    } else {
      NotBetter(m, worst - at, o, seen);
    }
  }

  lemma SelfNotWorse(a: Score)
    ensures ScoreCompare(a, a) <= 0
  {
  }

  lemma ReplaceWorst(m: seq<Score>, w: nat, o: Score, seen: seq<Score>)
    requires w < |m| && KeepsBest(m, seen) && ScoreCompare(m[w], o) > 0
    requires forall k :: 0 <= k < |m| ==> ScoreCompare(m[k], m[w]) <= 0
    ensures KeepsBest(m[w := o], seen + [o])
  {
    hide ScoreCompare;
    var m' := m[w := o];
    ScoreTotal(m[w], o);
    SelfNotWorse(o);
    assert m'[w] == o;
    forall s | s in seen + [o] && s !in m'
      ensures forall k :: 0 <= k < |m'| ==> ScoreCompare(m'[k], s) <= 0
    {
      SelfNotWorse(m[w]);
      assert forall k :: 0 <= k < |m| && k != w ==> m[k] == m'[k];
      forall k | 0 <= k < |m'|
        ensures ScoreCompare(m'[k], s) <= 0
      {
        ScoreTrans(m'[k], m[w], s);
      }
    }
  }

  lemma NotBetter(m: seq<Score>, w: nat, o: Score, seen: seq<Score>)
    requires w < |m| && KeepsBest(m, seen) && ScoreCompare(m[w], o) <= 0
    requires forall k :: 0 <= k < |m| ==> ScoreCompare(m[k], m[w]) <= 0
    ensures KeepsBest(m, seen + [o])
  {
    hide ScoreCompare;
    forall k | 0 <= k < |m|
      ensures ScoreCompare(m[k], o) <= 0
    {
      ScoreTrans(m[k], m[w], o);
    }
  }
}
