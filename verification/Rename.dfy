/** Detecting renames and copies in a queue of file pairs (diffcore-rename.c:10-92, 201-222, 252-303,
    472-707). */
module Rename {
  import opened Common
  import opened Strings
  import opened RenameSpec
  import opened RenameTables
  import opened RenameFair

  datatype Options = Options(copy: bool, copiesHarder: bool, renameScore: nat, renameLimit: int, renameEmpty: bool,
                             singleFollow: Option<string>)

  /** A created file rename detection is interested in. */
  predicate AsDst(opts: Options, emptyBlob: Sha, p: Pair) {
    && Creation(p)
    && (opts.singleFollow.Some? ==> opts.singleFollow.value == p.two.path)
    && (!opts.renameEmpty ==> p.two.sha != emptyBlob)
  }

  /** A file it may be renamed or copied from. */
  predicate AsSrc(opts: Options, emptyBlob: Sha, p: Pair) {
    IsSource(opts.copy, p) && (!opts.renameEmpty ==> p.one.sha != emptyBlob)
  }

  /** What makes a file one of interest: it is on one side only, or with copies on the old side at all; it is the one
      followed, if one is; and it is not empty, unless empty files count too. */
  lemma OfInterest(opts: Options, emptyBlob: Sha, p: Pair)
    ensures AsDst(opts, emptyBlob, p) <==>
      && p.one.mode == 0 && p.two.mode != 0 && (opts.renameEmpty || p.two.sha != emptyBlob)
      && (opts.singleFollow == None || opts.singleFollow == Some(p.two.path))
    ensures AsSrc(opts, emptyBlob, p) <==>
      p.one.mode != 0 && (opts.copy || p.two.mode == 0) && (opts.renameEmpty || p.one.sha != emptyBlob)
  {
  }

  /** The tables have exactly the files of interest among the first `n` pairs. */
  ghost predicate Registered(q: seq<Pair>, opts: Options, emptyBlob: Sha, dst: seq<Dst>, src: seq<nat>, n: nat) {
    && n <= |q|
    && forall i :: 0 <= i < n ==>
      && (i in src <==> AsSrc(opts, emptyBlob, q[i]))
      && (q[i].two.path in DstPaths(dst) <==> AsDst(opts, emptyBlob, q[i]))
  }

  lemma SameRegistered(q: seq<Pair>, opts: Options, emptyBlob: Sha, dst: seq<Dst>, src: seq<nat>, n: nat)
    requires WfQueue(q) && n < |q| && Registered(q, opts, emptyBlob, dst, src, n)
    requires n !in src && q[n].two.path !in DstPaths(dst)
    requires !AsSrc(opts, emptyBlob, q[n]) && !AsDst(opts, emptyBlob, q[n])
    ensures Registered(q, opts, emptyBlob, dst, src, n + 1)
  {
  }

  lemma DstRegistered(q: seq<Pair>, opts: Options, emptyBlob: Sha, dst: seq<Dst>, dst': seq<Dst>, src: seq<nat>,
                      n: nat, at: nat)
    requires WfQueue(q) && n < |q| && Registered(q, opts, emptyBlob, dst, src, n)
    requires n !in src && DstAdded(dst, dst', q[n].two, at)
    requires !AsSrc(opts, emptyBlob, q[n]) && AsDst(opts, emptyBlob, q[n])
    ensures Registered(q, opts, emptyBlob, dst', src, n + 1)
  {
    hide Between;
    var paths := DstPaths(dst);
    assert DstPaths(dst') == paths[..at] + [q[n].two.path] + paths[at..];
    assert paths == paths[..at] + paths[at..];
    assert forall x :: x in DstPaths(dst') <==> x in paths || x == q[n].two.path;
  }

  lemma SrcRegistered(q: seq<Pair>, opts: Options, emptyBlob: Sha, dst: seq<Dst>, src: seq<nat>, src': seq<nat>,
                      n: nat, at: nat)
    requires WfQueue(q) && n < |q| && Registered(q, opts, emptyBlob, dst, src, n)
    requires q[n].two.path !in DstPaths(dst) && SrcAdded(q, src, src', n, at)
    requires AsSrc(opts, emptyBlob, q[n]) && !AsDst(opts, emptyBlob, q[n])
    ensures Registered(q, opts, emptyBlob, dst, src', n + 1)
  {
    hide Between;
    assert src == src[..at] + src[at..];
    assert forall x :: x in src' <==> x in src || x == n;
  }

  ghost predicate FromFirst(q: seq<Pair>, n: nat, path: string) {
    exists i :: 0 <= i < n && i < |q| && q[i].two.path == path
  }

  lemma FromMore(q: seq<Pair>, n: nat, path: string)
    requires FromFirst(q, n, path)
    ensures FromFirst(q, n + 1, path)
  {
    var i :| 0 <= i < n && i < |q| && q[i].two.path == path;
    assert q[i].two.path == path;
  }

  /** Nothing is matched yet, and everything registered comes from the first `n` pairs. */
  ghost predicate Gathered(q: seq<Pair>, copy: bool, used: seq<nat>, dst: seq<Dst>, src: seq<nat>, n: nat) {
    && n <= |q| && TablesOk(q, copy, dst, src)
    && (forall k :: 0 <= k < |dst| ==> dst[k].pair.None? && FromFirst(q, n, dst[k].two.path))
    && (forall k :: 0 <= k < |src| ==> src[k] < n)
    && |used| == |q| && (forall i :: 0 <= i < |q| ==> used[i] == SelfUse(copy, q, src, i))
  }

  lemma GatheredBooks(q: seq<Pair>, copy: bool, used: seq<nat>, dst: seq<Dst>, src: seq<nat>, n: nat)
    requires Gathered(q, copy, used, dst, src, n)
    ensures Books(q, copy, used, dst, src)
  {
    hide TablesOk;
    forall i | 0 <= i < |q|
      ensures |Claimed(dst, i)| == 0
    {
      assert Claimed(dst, i) == {};
    }
  }

  /** A copy of a file description, as made for the table. */
  function Filled(two: FileSpec): FileSpec {
    FileSpec(two.path, two.mode, two.sha, two.sha != 0, false)
  }

  lemma AddDst(q: seq<Pair>, copy: bool, used: seq<nat>, dst: seq<Dst>, src: seq<nat>, n: nat, at: nat)
    requires Gathered(q, copy, used, dst, src, n) && n < |q| && Creation(q[n]) && at <= |dst|
    requires Between(DstPaths(dst), q[n].two.path, at)
    ensures Gathered(q, copy, used, dst[..at] + [Dst(Filled(q[n].two), None)] + dst[at..], src, n + 1)
  {
    hide StrCmp, Ascending, Between, IsCreated;
    var d := Dst(Filled(q[n].two), None);
    var dst' := dst[..at] + [d] + dst[at..];
    var paths := DstPaths(dst);
    InsertAscends(paths, d.two.path, at);
    assert DstPaths(dst') == paths[..at] + [d.two.path] + paths[at..];
    CreatedBy(q, d.two, n);
    forall k | 0 <= k < |dst'|
      ensures IsCreated(q, dst'[k].two) && dst'[k].pair.None? && FromFirst(q, n + 1, dst'[k].two.path)
    {
      if k == at {
        assert q[n].two.path == dst'[k].two.path;
      } else {
        var old' := dst[if k < at then k else k - 1];
        assert dst'[k] == old' && IsCreated(q, old'.two);
        FromMore(q, n, old'.two.path);
      }
    }
  }

  ghost predicate DstAdded(dst: seq<Dst>, dst': seq<Dst>, two: FileSpec, at: nat) {
    && at <= |dst| && Between(DstPaths(dst), two.path, at)
    && dst' == dst[..at] + [Dst(Filled(two), None)] + dst[at..]
  }

  ghost predicate SrcAdded(q: seq<Pair>, src: seq<nat>, src': seq<nat>, i: nat, at: nat) {
    && at <= |src| && InQueue(q, src) && i < |q| && Between(SrcPaths(q, src), q[i].one.path, at)
    && src' == src[..at] + [i] + src[at..]
  }

  lemma CreatedBy(q: seq<Pair>, two: FileSpec, i: nat)
    requires i < |q| && Creation(q[i]) && SamePost(two, q[i].two)
    ensures IsCreated(q, two)
  {
  }

  lemma SrcTables(q: seq<Pair>, copy: bool, dst: seq<Dst>, src: seq<nat>, n: nat, at: nat)
    requires TablesOk(q, copy, dst, src) && n < |q| && IsSource(copy, q[n]) && at <= |src|
    requires Between(SrcPaths(q, src), q[n].one.path, at)
    ensures TablesOk(q, copy, dst, src[..at] + [n] + src[at..])
    ensures forall k :: 0 <= k < |src| + 1 ==>
      (src[..at] + [n] + src[at..])[k] == if k < at then src[k] else if k == at then n else src[k - 1]
  {
    hide StrCmp, Ascending, Between, IsCreated, IsSource, SrcPaths;
    InsertAscends(SrcPaths(q, src), q[n].one.path, at);
    SrcPathsInsert(q, src, n, at);
  }

  lemma SrcPathsInsert(q: seq<Pair>, src: seq<nat>, n: nat, at: nat)
    requires InQueue(q, src) && n < |q| && at <= |src|
    ensures
      var src', paths := src[..at] + [n] + src[at..], SrcPaths(q, src);
      InQueue(q, src') && SrcPaths(q, src') == paths[..at] + [q[n].one.path] + paths[at..]
  {
  }

  lemma AddSrc(q: seq<Pair>, copy: bool, used: seq<nat>, dst: seq<Dst>, src: seq<nat>, n: nat, at: nat)
    requires Gathered(q, copy, used, dst, src, n) && n < |q| && IsSource(copy, q[n]) && at <= |src|
    requires Between(SrcPaths(q, src), q[n].one.path, at)
    ensures Gathered(q, copy, used[n := used[n] + if Valid(q[n].two) then 1 else 0], dst,
                     src[..at] + [n] + src[at..], n + 1)
  {
    hide TablesOk, FromFirst, Between;
    Later(q, copy, used, dst, src, n);
    SrcTables(q, copy, dst, src, n, at);
    var src' := src[..at] + [n] + src[at..];
    assert forall i: nat :: i in src' <==> i in src || i == n;
  }

  lemma Later(q: seq<Pair>, copy: bool, used: seq<nat>, dst: seq<Dst>, src: seq<nat>, n: nat)
    requires Gathered(q, copy, used, dst, src, n) && n < |q|
    ensures Gathered(q, copy, used, dst, src, n + 1) && n !in src
  {
    hide TablesOk;
    forall k | 0 <= k < |dst|
      ensures FromFirst(q, n + 1, dst[k].two.path)
    {
      FromMore(q, n, dst[k].two.path);
    }
  }

  /** No pair's path is in a table before its turn. */
  lemma NotThereYet(q: seq<Pair>, copy: bool, used: seq<nat>, dst: seq<Dst>, src: seq<nat>, n: nat)
    requires WfQueue(q) && Gathered(q, copy, used, dst, src, n) && n < |q|
    ensures q[n].two.path !in DstPaths(dst) && q[n].one.path !in SrcPaths(q, src)
  {
    hide TablesOk;
    assert InQueue(q, src);
    forall k | 0 <= k < |dst|
      ensures dst[k].two.path != q[n].two.path
    {
      assert FromFirst(q, n, dst[k].two.path);
      var i :| 0 <= i < n && i < |q| && q[i].two.path == dst[k].two.path;
    }
    forall k | 0 <= k < |src|
      ensures q[src[k]].one.path != q[n].one.path
    {
      assert q[src[k]].two.path != q[n].two.path;
    }
  }

  class Renames {
    const q: seq<Pair>
    const opts: Options
    const emptyBlob: Sha
    const hash: Sha -> nat
    const similar: (FileSpec, FileSpec) -> nat
    var used: seq<nat>
    var dst: seq<Dst>
    var src: seq<nat>

    constructor (q: seq<Pair>, opts: Options, emptyBlob: Sha, hash: Sha -> nat, similar: (FileSpec, FileSpec) -> nat)
      ensures this.q == q && this.opts == opts && this.emptyBlob == emptyBlob && this.similar == similar
      ensures dst == [] && src == [] && used == seq(|q|, _ => 0)
    {
      this.q, this.opts, this.emptyBlob, this.hash, this.similar := q, opts, emptyBlob, hash, similar;
      used, dst, src := seq(|q|, _ => 0), [], [];
    }

    ghost predicate Valid() reads this {
      WfQueue(q) && Books(q, opts.copy, used, dst, src)
    }

    /** Finding a destination by its path; with `insert`, putting it in place when it is missing. */
    method LocateDst(two: FileSpec, insert: bool) returns (at: Option<nat>)
      requires Ascending(DstPaths(dst))
      modifies this`dst
      ensures two.path in old(DstPaths(dst)) ==>
        dst == old(dst) && at.Some? && at.value < |dst| && dst[at.value].two.path == two.path
      ensures two.path !in old(DstPaths(dst)) && !insert ==> at.None? && dst == old(dst)
      ensures two.path !in old(DstPaths(dst)) && insert ==> at.Some? && DstAdded(old(dst), dst, two, at.value)
    {
      hide StrCmp, Ascending;
      var found, first := Search(DstPaths(dst), two.path);
      if found {
        return Some(first);
      }
      BetweenAbsent(DstPaths(dst), two.path, first);
      if !insert {
        return None;
      }
      dst := dst[..first] + [Dst(Filled(two), None)] + dst[first..];
      return Some(first);
    }

    method RegisterSrc(i: nat)
      requires i < |q| && InQueue(q, src) && Ascending(SrcPaths(q, src))
      modifies this`src
      ensures q[i].one.path in SrcPaths(q, old(src)) ==> src == old(src)
      ensures q[i].one.path !in SrcPaths(q, old(src)) ==> exists at :: SrcAdded(q, old(src), src, i, at)
    {
      hide StrCmp, Ascending;
      var found, first := Search(SrcPaths(q, src), q[i].one.path);
      if found {
        return;
      }
      BetweenAbsent(SrcPaths(q, src), q[i].one.path, first);
      ghost var src0 := src;
      src := src[..first] + [i] + src[first..];
      assert SrcAdded(q, src0, src, i, first);
    }

    /** Entering one pair into the tables, if rename detection is interested in it. */
    method GatherPair(i: nat)
      requires WfQueue(q) && i < |q| && Gathered(q, opts.copy, used, dst, src, i)
      requires Registered(q, opts, emptyBlob, dst, src, i)
      modifies this`used, this`dst, this`src
      ensures Gathered(q, opts.copy, used, dst, src, i + 1)
      ensures Registered(q, opts, emptyBlob, dst, src, i + 1)
    {
      hide Gathered, Registered, Ascending, StrCmp, Between, DstPaths, SrcPaths;
      var p := q[i];
      NotThereYet(q, opts.copy, used, dst, src, i);
      Later(q, opts.copy, used, dst, src, i);
      GatheredTables(i);
      if !AsSrc(opts, emptyBlob, p) && !AsDst(opts, emptyBlob, p) {
        SameRegistered(q, opts, emptyBlob, dst, src, i);
      }
      if !RenameSpec.Valid(p.one) {
        if !RenameSpec.Valid(p.two) {
          return;
        } else if opts.singleFollow.Some? && opts.singleFollow.value != p.two.path {
          return;
        } else if !opts.renameEmpty && p.two.sha == emptyBlob {
          return;
        }
        ghost var dst0 := dst;
        var at := LocateDst(p.two, true);
        DstRegistered(q, opts, emptyBlob, dst0, dst, src, i, at.value);
        AddDst(q, opts.copy, used, dst0, src, i, at.value);
      } else if !opts.renameEmpty && p.one.sha == emptyBlob {
        return;
      } else if !RenameSpec.Valid(p.two) {
        ghost var src0 := src;
        RegisterSrc(i);
        ghost var at :| SrcAdded(q, src0, src, i, at);
        SrcRegistered(q, opts, emptyBlob, dst, src0, src, i, at);
        AddSrc(q, opts.copy, used, dst, src0, i, at);
        assert used[i := used[i] + 0] == used;
      } else if opts.copy {
        ghost var src0, used0 := src, used;
        used := used[i := used[i] + 1];
        RegisterSrc(i);
        ghost var at :| SrcAdded(q, src0, src, i, at);
        SrcRegistered(q, opts, emptyBlob, dst, src0, src, i, at);
        AddSrc(q, opts.copy, used0, dst, src0, i, at);
      }
    }

    lemma GatheredTables(n: nat)
      requires Gathered(q, opts.copy, used, dst, src, n)
      ensures |used| == |q| && InQueue(q, src) && Ascending(DstPaths(dst)) && Ascending(SrcPaths(q, src))
    {
    }

    /** The first phase. */
    method Gather()
      requires WfQueue(q) && dst == [] && src == [] && used == seq(|q|, _ => 0)
      modifies this`used, this`dst, this`src
      ensures Valid() && forall k :: 0 <= k < |dst| ==> dst[k].pair.None?
      ensures Registered(q, opts, emptyBlob, dst, src, |q|)
    {
      for i := 0 to |q|
        invariant Gathered(q, opts.copy, used, dst, src, i)
        invariant Registered(q, opts, emptyBlob, dst, src, i)
      {
        GatherPair(i);
      }
      GatheredBooks(q, opts.copy, used, dst, src, |q|);
    }

    // ---------------------------------------------------------------- matching

    /** Recording a match; the destination must not have one. */
    method RecordRenamePair(dstIndex: nat, i: nat)
      requires Valid() && dstIndex < |dst| && dst[dstIndex].pair.None? && i in src && i < |q|
      requires Type(q[i].one.mode) == Type(dst[dstIndex].two.mode) && (!opts.copy ==> used[i] == 0)
      modifies this`used, this`dst
      ensures Valid() && dst == old(dst)[dstIndex := old(dst)[dstIndex].(pair := Some(i))]
      ensures Matched(dst) == Matched(old(dst)) + 1
      ensures |used| == |old(used)| && used == old(used)[i := old(used)[i] + 1]
    {
      hide Books, Matched;
      UsedFits();
      MatchKeepsBooks(q, opts.copy, used, dst, src, dstIndex, i);
      MatchOneMore(dst, dstIndex, dst[dstIndex].(pair := Some(i)));
      used := used[i := used[i] + 1];
      dst := dst[dstIndex := dst[dstIndex].(pair := Some(i))];
    }

    lemma UsedFits()
      requires Valid()
      ensures |used| == |q| && InQueue(q, src) && forall i :: i in src ==> i < |q|
    {
    }

    /** An identical file that may serve as the source of `target`. */
    predicate Eligible(i: nat, target: FileSpec)
      reads this
      requires i < |q| && |used| == |q|
    {
      && q[i].one.sha == target.sha
      && ((IsRegular(q[i].one) && IsRegular(target)) || q[i].one.mode == target.mode)
      && (used[i] == 0 || opts.copy)
    }

    /** One point for a source not used yet, one for the same basename. */
    function Preference(i: nat, target: FileSpec): nat
      reads this
      requires i < |q| && |used| == |q|
    {
      (if used[i] == 0 then 1 else 0) + if Base(q[i].one.path) == Base(target.path) then 1 else 0
    }

    ghost predicate InRange(srcs: seq<nat>) {
      forall n :: 0 <= n < |srcs| ==> srcs[n] < |q|
    }

    ghost function EligibleCount(srcs: seq<nat>, target: FileSpec): nat
      reads this
      requires |used| == |q| && InRange(srcs)
    {
      if srcs == [] then 0
      else EligibleCount(srcs[..|srcs| - 1], target) + if Eligible(srcs[|srcs| - 1], target) then 1 else 0
    }

    /** `at` is the first of the most preferred eligible sources among the first `n`. */
    ghost predicate IsBest(srcs: seq<nat>, n: nat, at: nat, target: FileSpec)
      reads this
      requires |used| == |q| && InRange(srcs)
    {
      && at < n <= |srcs| && Eligible(srcs[at], target)
      && forall k :: 0 <= k < n && Eligible(srcs[k], target) ==>
        if k < at then Preference(srcs[k], target) < Preference(srcs[at], target)
        else Preference(srcs[k], target) <= Preference(srcs[at], target)
    }

    /** The search ended behind the first `n` sources, with the one at `at`. */
    ghost predicate Chosen(srcs: seq<nat>, n: nat, at: nat, target: FileSpec)
      reads this
      requires |used| == |q| && InRange(srcs)
    {
      && IsBest(srcs, n, at, target)
      && (n == |srcs| || Preference(srcs[at], target) == 2 || EligibleCount(srcs[..n], target) == 100)
    }

    lemma NoneCounted(target: FileSpec)
      requires |used| == |q|
      ensures EligibleCount([], target) == 0
    {
    }

    lemma CountNext(srcs: seq<nat>, m: nat, target: FileSpec)
      requires |used| == |q| && InRange(srcs) && m < |srcs|
      ensures EligibleCount(srcs[..m + 1], target)
           == EligibleCount(srcs[..m], target) + if Eligible(srcs[m], target) then 1 else 0
    {
      assert srcs[..m + 1][..m] == srcs[..m];
    }

    lemma BestStays(srcs: seq<nat>, m: nat, at: nat, target: FileSpec)
      requires |used| == |q| && InRange(srcs) && m < |srcs| && at < |srcs| && IsBest(srcs, m, at, target)
      ensures !(Eligible(srcs[m], target) && Preference(srcs[m], target) > Preference(srcs[at], target)) ==>
        IsBest(srcs, m + 1, at, target)
    {
      hide Eligible, Preference;
    }

    lemma BestNew(srcs: seq<nat>, m: nat, first: bool, at: nat, target: FileSpec)
      requires |used| == |q| && InRange(srcs) && m < |srcs| && Eligible(srcs[m], target)
      requires if first then forall k :: 0 <= k < m ==> !Eligible(srcs[k], target)
        else at < |srcs| && IsBest(srcs, m, at, target) && Preference(srcs[at], target) < Preference(srcs[m], target)
      ensures IsBest(srcs, m + 1, m, target)
    {
      hide Eligible, Preference;
    }

    /** The best source among identical files: unused before used, then the same basename, the first of equals.
        It stops looking at a perfect one, or after a hundred. */
    method PickBest(target: FileSpec, srcs: seq<nat>) returns (best: Option<nat>)
      requires |used| == |q| && InRange(srcs)
      ensures best.Some? ==> exists n: nat, at: nat :: Chosen(srcs, n, at, target) && best.value == srcs[at]
      ensures best.None? ==> forall n :: 0 <= n < |srcs| ==> !Eligible(srcs[n], target)
    {
      hide IsBest, EligibleCount, IsRegular, Base;
      best := None;
      ghost var n: nat, at: nat := 0, 0;
      var i, bestScore := 100, -1;
      NoneCounted(target);
      for m := 0 to |srcs|
        invariant n == m && i > 0 && i == 100 - EligibleCount(srcs[..n], target)
        invariant best.None? ==> bestScore == -1 && forall k :: 0 <= k < n ==> !Eligible(srcs[k], target)
        invariant best.Some? ==> at < |srcs| && IsBest(srcs, n, at, target) && best.value == srcs[at]
        invariant best.Some? ==> bestScore == Preference(srcs[at], target)
      {
        n := m + 1;
        CountNext(srcs, m, target);
        if best.Some? { BestStays(srcs, m, at, target); }
        var source := q[srcs[m]].one;
        if source.sha != target.sha {
          continue;
        }
        if !IsRegular(source) || !IsRegular(target) {
          if source.mode != target.mode {
            continue;
          }
        }
        var score := if used[srcs[m]] == 0 then 1 else 0;
        if used[srcs[m]] != 0 && !opts.copy {
          continue;
        }
        var same := BasenameSame(source.path, target.path);
        score := score + if same then 1 else 0;
        if score > bestScore {
          BestNew(srcs, m, best.None?, at, target);
          best, bestScore := Some(srcs[m]), score;
          at := m;
          if score == 2 {
            break;
          }
        }
        i := i - 1;
        if i == 0 {
          break;
        }
      }
      if best.Some? {
        assert Chosen(srcs, n, at, target);
      }
    }

    /** The same destinations, and what was matched stays so. */
    static ghost predicate Keeps(before: seq<Dst>, after: seq<Dst>) {
      && |after| == |before|
      && forall k :: 0 <= k < |after| ==>
          after[k].two == before[k].two && (before[k].pair.Some? ==> after[k].pair == before[k].pair)
    }

    /** Sources are only ever used more. */
    static ghost predicate UsedMore(before: seq<nat>, after: seq<nat>) {
      |after| == |before| && forall i :: 0 <= i < |after| ==> after[i] >= before[i]
    }

    /** No source may still be taken for `target` as an identical file. */
    ghost predicate NoneEligible(target: FileSpec)
      reads this
    {
      |used| == |q| && forall s :: s in src && s < |q| ==> !Eligible(s, target)
    }

    /** The destination is matched, or no identical source may be taken for it. */
    ghost predicate Settled(k: nat)
      reads this
      requires k < |dst|
    {
      dst[k].pair.Some? || NoneEligible(dst[k].two)
    }

    twostate lemma StaysSettled(k: nat)
      requires old(|used|) == |q| && UsedMore(old(used), used) && src == old(src) && Keeps(old(dst), dst)
      requires k < |dst| && old(Settled(k))
      ensures Settled(k)
    {
    }

    /** These are the sources with the hash value `h`. */
    ghost predicate SourcesListed(srcs: seq<nat>, h: nat) reads this {
      && (forall s :: s in srcs ==> s in src)
      && (forall s :: s in src && s < |q| && hash(q[s].one.sha) == h ==> s in srcs)
    }

    /** Matching one destination with an identical file, if any may be taken. */
    method MatchIdentical(d: nat, srcs: seq<nat>, ghost h: nat) returns (found: nat)
      requires Valid() && SourcesListed(srcs, h)
      requires d < |dst| && hash(dst[d].two.sha) == h && dst[d].pair.None?
      modifies this`used, this`dst
      ensures Valid() && Keeps(old(dst), dst) && Matched(dst) == Matched(old(dst)) + found
      ensures forall k :: 0 <= k < |dst| && k != d ==> dst[k] == old(dst)[k]
      ensures old(|used|) == |q| && UsedMore(old(used), used) && Settled(d)
      ensures dst[d].pair.Some? ==> IsSame(dst[d])
      ensures dst[d].pair.Some? ==>
        exists n: nat, at: nat :: old(InRange(srcs) && Chosen(srcs, n, at, dst[d].two)) && dst[d].pair.value == srcs[at]
    {
      hide Books, Matched, Eligible, NoneEligible, Preference, IsSame;
      UsedFits();
      found := 0;
      assert forall m :: 0 <= m < |srcs| ==> srcs[m] in srcs && srcs[m] in src;
      var best := PickBest(dst[d].two, srcs);
      if best.Some? {
        ghost var n: nat, at: nat :| Chosen(srcs, n, at, dst[d].two) && best.value == srcs[at];
        EligibleFits(best.value, dst[d].two);
        EligibleIsSame(best.value, dst[d]);
        RecordRenamePair(d, best.value);
        found := 1;
      } else {
        OthersNotEligible(dst[d].two, srcs, h);
      }
    }

    /** Matching identical files of one group. */
    method FindIdenticalFiles(srcs: seq<nat>, dsts: seq<nat>, ghost h: nat) returns (renames: nat)
      requires Valid() && SourcesListed(srcs, h)
      requires forall n :: 0 <= n < |dsts| ==> dsts[n] < |dst| && hash(dst[dsts[n]].two.sha) == h
      requires forall n :: 0 <= n < |dsts| ==> dst[dsts[n]].pair.None?
      requires forall n, m :: 0 <= n < m < |dsts| ==> dsts[n] != dsts[m]
      modifies this`used, this`dst
      ensures Valid() && Keeps(old(dst), dst) && Matched(dst) == Matched(old(dst)) + renames
      ensures forall k :: 0 <= k < |dst| && k !in dsts ==> dst[k] == old(dst)[k]
      ensures old(|used|) == |q| && UsedMore(old(used), used) && forall n :: 0 <= n < |dsts| ==> Settled(dsts[n])
      ensures ExactOnly(old(dst), dst)
    {
      hide Books, Matched, Settled, IsSame;
      UsedFits();
      renames := 0;
      for n := 0 to |dsts|
        invariant Valid() && Keeps(old(dst), dst) && Matched(dst) == Matched(old(dst)) + renames
        invariant forall m :: n <= m < |dsts| ==> dst[dsts[m]].pair.None?
        invariant forall k :: 0 <= k < |dst| && k !in dsts ==> dst[k] == old(dst)[k]
        invariant UsedMore(old(used), used) && forall m :: 0 <= m < n ==> Settled(dsts[m])
        invariant ExactOnly(old(dst), dst)
      {
        label L:
        var found := MatchIdentical(dsts[n], srcs, h);
        forall m | 0 <= m < n
          ensures Settled(dsts[m])
        {
          StaysSettled@L(dsts[m]);
        }
        renames := renames + found;
      }
    }

    /** The destination is matched with an identical file. */
    predicate IsSame(d: Dst) {
      && d.pair.Some? && d.pair.value < |q|
      && q[d.pair.value].one.sha == d.two.sha
      && ((IsRegular(q[d.pair.value].one) && IsRegular(d.two)) || q[d.pair.value].one.mode == d.two.mode)
    }

    /** What is matched since `dst0` is matched with identical files. */
    ghost predicate ExactOnly(dst0: seq<Dst>, dst1: seq<Dst>) {
      |dst1| == |dst0| && forall k :: 0 <= k < |dst1| && dst1[k] != dst0[k] ==> IsSame(dst1[k])
    }

    lemma EligibleIsSame(i: nat, d: Dst)
      requires i < |q| && |used| == |q| && Eligible(i, d.two)
      ensures IsSame(d.(pair := Some(i)))
    {
    }

    lemma EligibleFits(i: nat, target: FileSpec)
      requires i < |q| && |used| == |q| && Eligible(i, target)
      ensures Type(q[i].one.mode) == Type(target.mode) && (!opts.copy ==> used[i] == 0)
    {
    }

    /** Sources with another hash value are not identical. */
    lemma OthersNotEligible(target: FileSpec, srcs: seq<nat>, h: nat)
      requires |used| == |q| && SourcesListed(srcs, h) && hash(target.sha) == h
      requires forall m :: 0 <= m < |srcs| ==> srcs[m] < |q| && !Eligible(srcs[m], target)
      ensures NoneEligible(target)
    {
    }

    /** Exact matches, group by group of equal hash values; groups come in any order. */
    method FindExactRenames() returns (renames: nat)
      requires Valid() && forall k :: 0 <= k < |dst| ==> dst[k].pair.None?
      modifies this`used, this`dst
      ensures Valid() && Keeps(old(dst), dst) && Matched(dst) == renames && UsedMore(old(used), used)
      ensures forall k :: 0 <= k < |dst| ==> Settled(k)
      ensures ExactOnly(old(dst), dst)
    {
      hide Books, Matched, Settled, IsSame;
      UsedFits();
      renames := 0;
      var keys := set k | 0 <= k < |dst| :: hash(dst[k].two.sha);
      NoneMatched(dst);
      while keys != {}
        invariant Valid() && Keeps(old(dst), dst) && Matched(dst) == renames
        invariant |used| == |q| && UsedMore(old(used), used) && ExactOnly(old(dst), dst)
        invariant forall k :: 0 <= k < |dst| ==> if hash(dst[k].two.sha) in keys then dst[k].pair.None? else Settled(k)
        decreases |keys|
      {
        var h :| h in keys;
        UsedFits();
        var srcs := SourcesOf(h);
        var dsts := DestinationsOf(h);
        assert forall n :: 0 <= n < |dsts| ==> dsts[n] in dsts && hash(dst[dsts[n]].two.sha) == h;
        keys := keys - {h};
        label L:
        var found := FindIdenticalFiles(srcs, dsts, h);
        forall k | 0 <= k < |dst| && hash(dst[k].two.sha) !in keys
          ensures Settled(k)
        {
          if hash(dst[k].two.sha) == h {
            assert k in dsts;
          } else {
            StaysSettled@L(k);
          }
        }
        renames := renames + found;
      }
    }

    method SourcesOf(h: nat) returns (srcs: seq<nat>)
      requires InQueue(q, src)
      ensures SourcesListed(srcs, h)
    {
      srcs := [];
      for k := 0 to |src|
        invariant forall s :: s in srcs ==> s in src
        invariant forall s :: s in src[..k] && s < |q| && hash(q[s].one.sha) == h ==> s in srcs
      {
        if hash(q[src[k]].one.sha) == h {
          srcs := srcs + [src[k]];
        }
      }
    }

    method DestinationsOf(h: nat) returns (dsts: seq<nat>)
      ensures forall k: nat :: k in dsts <==> k < |dst| && hash(dst[k].two.sha) == h
      ensures forall n, m :: 0 <= n < m < |dsts| ==> dsts[n] != dsts[m]
    {
      dsts := [];
      for k := 0 to |dst|
        invariant forall d: nat :: d in dsts <==> d < k && hash(dst[d].two.sha) == h
        invariant forall n, m :: 0 <= n < m < |dsts| ==> dsts[n] != dsts[m]
      {
        if hash(dst[k].two.sha) == h {
          dsts := dsts + [k];
        }
      }
    }

    // ---------------------------------------------------------------- inexact matches

    /** How similar two files are, from 0 to MAX_SCORE.  What comparing their contents says is left open, but only
        regular files are compared. */
    function Similarity(one: FileSpec, two: FileSpec): nat {
      if !IsRegular(one) || !IsRegular(two) then 0
      else if similar(one, two) > MAX_SCORE then MAX_SCORE
      else similar(one, two)
    }

    /** Source `j` as a candidate for destination `i`, which is `two`. */
    function Candidate(j: nat, i: nat, two: FileSpec): Score
      reads this`src
      requires InQueue(q, src) && j < |src|
    {
      var one := q[src[j]].one;
      Score(j, i, Similarity(one, two), if Base(one.path) == Base(two.path) then 1 else 0)
    }

    /** Only regular files are more than 0 similar; and the basename decides between the equally similar. */
    lemma CandidatesCompare(a: Score, b: Score, one: FileSpec, two: FileSpec)
      ensures Similarity(one, two) == if one.mode / 0x1000 % 0x10 != 8 || two.mode / 0x1000 % 0x10 != 8 then 0
        else if similar(one, two) < 60000 then similar(one, two) else 60000
      ensures a.dst >= 0 && b.dst >= 0 ==>
        (ScoreCompare(a, b) <= 0 <==> a.score > b.score || (a.score == b.score && a.name >= b.name))
      ensures a.dst >= 0 && b.dst < 0 ==> ScoreCompare(a, b) < 0
    {
    }

    /** Sources that are looked at: without `skip` all, else only modified ones. */
    predicate Considered(j: nat, skip: bool)
      reads this`src
      requires InQueue(q, src) && j < |src|
    {
      !(skip && Unmodified(q[src[j]]))
    }

    lemma ConsideredMeans(j: nat)
      requires InQueue(q, src) && j < |src|
      ensures Considered(j, false) && (Considered(j, true) <==> !Unmodified(q[src[j]]))
    {
    }

    /** An unused place, or a candidate of the tables. */
    ghost predicate CandidateOk(c: Score)
      reads this
      requires InQueue(q, src)
    {
      c.dst >= 0 ==> c.dst < |dst| && c.src < |src| && c == Candidate(c.src, c.dst, dst[c.dst].two)
    }

    ghost predicate CandidatesOk(mx: seq<Score>)
      reads this
    {
      InQueue(q, src) && forall k :: 0 <= k < |mx| ==> CandidateOk(mx[k])
    }

    /** The places of destination `i`: its own candidates, from different sources before `n`. */
    ghost predicate PlacesOk(m: seq<Score>, i: nat, n: nat)
      reads this
      requires InQueue(q, src)
    {
      && (forall k :: 0 <= k < |m| ==> m[k].dst < 0 || (m[k].dst == i && m[k].src < n && CandidateOk(m[k])))
      && (forall a, b :: 0 <= a < b < |m| && m[a].dst >= 0 && m[b].dst >= 0 ==> m[a].src != m[b].src)
    }

    /** The best candidates for destination `i`, in the four places from `at` on. */
    method FillCandidates(mx: array<Score>, at: nat, i: nat, skip: bool) returns (ghost seen: seq<Score>)
      requires InQueue(q, src) && i < |dst| && at + NUM_CANDIDATE_PER_DST <= mx.Length
      modifies mx
      ensures KeepsBest(mx[at..at + NUM_CANDIDATE_PER_DST], seen)
      ensures PlacesOk(mx[at..at + NUM_CANDIDATE_PER_DST], i, |src|)
      ensures forall j :: 0 <= j < |src| && Considered(j, skip) ==> Candidate(j, i, dst[i].two) in seen
      ensures forall k :: 0 <= k < mx.Length && !(at <= k < at + NUM_CANDIDATE_PER_DST) ==> mx[k] == old(mx[k])
    {
      hide KeepsBest, Base, Similarity, Unmodified, PlacesOk;
      for j := 0 to NUM_CANDIDATE_PER_DST
        invariant forall k :: at <= k < at + j ==> mx[k].dst == -1
        invariant forall k :: 0 <= k < mx.Length && !(at <= k < at + j) ==> mx[k] == old(mx[k])
      {
        mx[at + j] := mx[at + j].(dst := -1);
      }
      seen := [];
      NothingSeen(mx[at..at + NUM_CANDIDATE_PER_DST], i);
      for j := 0 to |src|
        invariant KeepsBest(mx[at..at + NUM_CANDIDATE_PER_DST], seen)
        invariant PlacesOk(mx[at..at + NUM_CANDIDATE_PER_DST], i, j)
        invariant forall n :: 0 <= n < j && Considered(n, skip) ==> Candidate(n, i, dst[i].two) in seen
        invariant forall k :: 0 <= k < mx.Length && !(at <= k < at + NUM_CANDIDATE_PER_DST) ==> mx[k] == old(mx[k])
      {
        ghost var m := mx[at..at + NUM_CANDIDATE_PER_DST];
        MoreSources(m, i, j);
        if skip && Unmodified(q[src[j]]) {
          continue;
        }
        var one, two := q[src[j]].one, dst[i].two;
        var score := Similarity(one, two);
        var same := BasenameSame(one.path, two.path);
        var o := Score(j, i, score, if same then 1 else 0);
        RecordIfBetter(mx, at, o, seen);
        OnePlaceChanged(m, mx[at..at + NUM_CANDIDATE_PER_DST], o, i, j);
        seen := seen + [o];
      }
    }

    lemma NothingSeen(m: seq<Score>, i: nat)
      requires InQueue(q, src) && forall k :: 0 <= k < |m| ==> m[k].dst == -1
      ensures KeepsBest(m, []) && PlacesOk(m, i, 0)
    {
    }

    lemma MoreSources(m: seq<Score>, i: nat, n: nat)
      requires InQueue(q, src) && PlacesOk(m, i, n)
      ensures PlacesOk(m, i, n + 1)
    {
      hide Candidate;
    }

    lemma OnePlaceChanged(m: seq<Score>, m': seq<Score>, o: Score, i: nat, n: nat)
      requires InQueue(q, src) && PlacesOk(m, i, n) && n < |src| && i < |dst| && o == Candidate(n, i, dst[i].two)
      requires m' == m || exists w :: Replaced(m, m', w, o)
      ensures PlacesOk(m', i, n + 1)
    {
      hide Similarity, Base;
      if m' == m {
        MoreSources(m, i, n);
      } else {
        var w :| Replaced(m, m', w, o);
        assert forall k :: 0 <= k < |m| ==> m'[k] == if k == w then o else m[k];
      }
    }

    /** Four candidates of the same destination, from different sources, that are at least as good. */
    static ghost predicate FourBetter(m: seq<Score>, o: Score) {
      && |m| == NUM_CANDIDATE_PER_DST
      && (forall k :: 0 <= k < |m| ==> m[k].dst == o.dst && ScoreCompare(m[k], o) <= 0)
      && (forall a, b :: 0 <= a < b < |m| ==> m[a].src != m[b].src)
    }

    /** The candidate is in the matrix, or four better ones are. */
    static ghost predicate Listed(mx: seq<Score>, o: Score) {
      o in mx || exists m :: FourBetter(m, o) && forall k :: 0 <= k < |m| ==> m[k] in mx
    }

    static lemma ListedMore(a: seq<Score>, b: seq<Score>, o: Score)
      requires Listed(a, o) && forall c :: c in a ==> c in b
      ensures Listed(b, o)
    {
      hide FourBetter;
    }

    lemma PlacesList(a: seq<Score>, m: seq<Score>, seen: seq<Score>, i: nat, n: nat, o: Score)
      requires InQueue(q, src) && |m| == NUM_CANDIDATE_PER_DST && PlacesOk(m, i, n) && KeepsBest(m, seen)
      requires o in seen && o.dst == i
      ensures Listed(a + m, o)
    {
      hide Candidate;
      if o !in m {
        assert FourBetter(m, o);
      }
    }

    static predicate Usable(c: Score, minimumScore: nat) {
      c.dst >= 0 && c.score >= minimumScore
    }

    /** Taking candidates best first.  Afterwards no usable one is left whose destination is unmatched and whose
        source may be taken. */
    method FindRenames(mx: seq<Score>, minimumScore: nat, copies: bool) returns (count: nat)
      requires Valid() && Sorted(mx) && CandidatesOk(mx) && minimumScore > 0 && (copies ==> opts.copy)
      modifies this`used, this`dst
      ensures Valid() && Keeps(old(dst), dst) && Matched(dst) == Matched(old(dst)) + count
      ensures Picked(mx, minimumScore, copies) && old(|used|) == |q| && UsedMore(old(used), used)
      ensures AllFair(src, dst, mx, |mx|, minimumScore, old(dst), old(used), copies)
      ensures !copies ==> FromUnused(old(dst), old(used), dst)
    {
      hide Books, Matched, ScoreCompare, Candidate, Taking, AllFair, FromUnused;
      count := 0;
      UsedFits();
      ghost var dst0, used0 := dst, used;
      TakingStarts(src, dst, used, mx, minimumScore, copies);
      var i := 0;
      while i < |mx|
        invariant 0 <= i <= |mx| && Valid() && Keeps(old(dst), dst) && Matched(dst) == Matched(old(dst)) + count
        invariant CandidatesOk(mx) && |used| == |q| && UsedMore(old(used), used)
        invariant forall k :: 0 <= k < i && Usable(mx[k], minimumScore) ==>
          dst[mx[k].dst].pair.Some? || (!copies && used[src[mx[k].src]] > 0)
        invariant Taking(src, dst, used, mx, i, minimumScore, dst0, used0, copies)
      {
        UsedFits();
        if mx[i].dst < 0 || mx[i].score < minimumScore {
          RestUnusable(mx, i, minimumScore);
          break;
        }
        CandidateTypes(mx[i]);
        var d, s := mx[i].dst, src[mx[i].src];
        if dst[d].pair.None? && (copies || used[s] == 0) {
          ghost var dst1, used1 := dst, used;
          RecordRenamePair(d, s);
          count := count + 1;
          Taken(src, dst1, used1, mx, i, minimumScore, dst0, used0, copies, dst, used);
        } else {
          Passed(src, dst, used, mx, i, minimumScore, dst0, used0, copies);
        }
        i := i + 1;
      }
      AllTreated(src, dst, used, mx, i, minimumScore, dst0, used0, copies);
    }

    lemma CandidateTypes(c: Score)
      requires InQueue(q, src) && CandidateOk(c) && c.dst >= 0 && c.score > 0
      ensures c.dst < |dst| && c.src < |src| && Type(q[src[c.src]].one.mode) == Type(dst[c.dst].two.mode)
    {
    }

    static lemma RestUnusable(mx: seq<Score>, i: nat, minimumScore: nat)
      requires Sorted(mx) && i < |mx| && !Usable(mx[i], minimumScore)
      ensures forall k :: i <= k < |mx| ==> !Usable(mx[k], minimumScore)
    {
      forall k | i < k < |mx|
        ensures !Usable(mx[k], minimumScore)
      {
        assert ScoreCompare(mx[i], mx[k]) <= 0;
      }
    }

    /** Every considered candidate of the unmatched ones among the first `n` destinations is listed. */
    ghost predicate AllListed(mx: seq<Score>, dst: seq<Dst>, n: nat, skip: bool)
      reads this`src
    {
      && InQueue(q, src) && n <= |dst|
      && forall i, j :: 0 <= i < n && 0 <= j < |src| && dst[i].pair.None? && Considered(j, skip) ==>
          Listed(mx, Candidate(j, i, dst[i].two))
    }

    lemma OneMoreListed(mx: seq<Score>, m: seq<Score>, seen: seq<Score>, i: nat, skip: bool)
      requires AllListed(mx, dst, i, skip) && i < |dst| && |m| == NUM_CANDIDATE_PER_DST
      requires dst[i].pair.None? ==> KeepsBest(m, seen) && PlacesOk(m, i, |src|)
      requires dst[i].pair.None? ==>
        forall j :: 0 <= j < |src| && Considered(j, skip) ==> Candidate(j, i, dst[i].two) in seen
      ensures AllListed(if dst[i].pair.None? then mx + m else mx, dst, i + 1, skip)
    {
      hide Listed, Unmodified, PlacesOk, Similarity, KeepsBest;
      forall n, j | 0 <= n < i + 1 && 0 <= j < |src| && dst[n].pair.None? && Considered(j, skip)
        ensures Listed(if dst[i].pair.None? then mx + m else mx, Candidate(j, n, dst[n].two))
      {
        if n < i {
          ListedMore(mx, mx + m, Candidate(j, n, dst[n].two));
        } else {
          PlacesList(mx, m, seen, i, |src|, Candidate(j, i, dst[i].two));
        }
      }
    }

    lemma PlacesAreOk(mx: seq<Score>, m: seq<Score>, i: nat, n: nat)
      requires CandidatesOk(mx) && PlacesOk(m, i, n)
      ensures CandidatesOk(mx + m)
    {
      hide Candidate;
    }

    lemma SortedListed(mx: seq<Score>, sorted: seq<Score>, skip: bool)
      requires AllListed(mx, dst, |dst|, skip) && CandidatesOk(mx) && multiset(sorted) == multiset(mx)
      ensures AllListed(sorted, dst, |dst|, skip) && CandidatesOk(sorted)
    {
      hide Listed, Unmodified, Candidate;
      assert forall c :: c in mx ==> c in multiset(mx);
      forall k | 0 <= k < |sorted|
        ensures CandidateOk(sorted[k])
      {
        assert sorted[k] in multiset(sorted);
      }
      forall i, j | 0 <= i < |dst| && 0 <= j < |src| && dst[i].pair.None? && Considered(j, skip)
        ensures Listed(sorted, Candidate(j, i, dst[i].two))
      {
        forall c | c in mx
          ensures c in sorted
        {
          assert c in multiset(sorted);
        }
        ListedMore(mx, sorted, Candidate(j, i, dst[i].two));
      }
    }

    /** The candidates of all unmatched destinations, best first: the four best of each, which fit the matrix. */
    method BuildMatrix(renameCount: nat, skip: bool) returns (sorted: seq<Score>)
      requires InQueue(q, src) && Matched(dst) == renameCount
      ensures Sorted(sorted) && CandidatesOk(sorted) && AllListed(sorted, dst, |dst|, skip)
    {
      hide Matched, KeepsBest, PlacesOk, CandidatesOk, AllListed, Candidate, Unmodified;
      MatchedFits(dst, |dst|);
      assert dst[..|dst|] == dst;
      var numCreate := |dst| - renameCount;
      var mx := new Score[numCreate * NUM_CANDIDATE_PER_DST](_ => Score(0, 0, 0, 0));
      var dstCnt: nat := 0;
      NoneMatched(dst[..0]);
      NothingListed(skip);
      for i := 0 to |dst|
        invariant dstCnt == i - Matched(dst[..i]) && dstCnt <= numCreate
        invariant CandidatesOk(mx[..dstCnt * NUM_CANDIDATE_PER_DST])
        invariant AllListed(mx[..dstCnt * NUM_CANDIDATE_PER_DST], dst, i, skip)
      {
        NextMatched(dst, i);
        MatchedFits(dst, i + 1);
        ghost var before := mx[..dstCnt * NUM_CANDIDATE_PER_DST];
        if dst[i].pair.Some? {
          OneMoreListed(before, [UNUSED, UNUSED, UNUSED, UNUSED], [], i, skip);
          continue;
        }
        var at := dstCnt * NUM_CANDIDATE_PER_DST;
        ghost var seen := FillCandidates(mx, at, i, skip);
        ghost var m := mx[at..at + NUM_CANDIDATE_PER_DST];
        OneMoreListed(before, m, seen, i, skip);
        PlacesAreOk(before, m, i, |src|);
        assert mx[..at + NUM_CANDIDATE_PER_DST] == before + m;
        dstCnt := dstCnt + 1;
      }
      sorted := SortScores(mx[..dstCnt * NUM_CANDIDATE_PER_DST]);
      SortedListed(mx[..dstCnt * NUM_CANDIDATE_PER_DST], sorted, skip);
    }

    lemma NothingListed(skip: bool)
      requires InQueue(q, src)
      ensures CandidatesOk([]) && AllListed([], dst, 0, skip)
    {
    }

    /** No more can be done for destination `i`: with copies, no considered source is similar enough; without, each
        that is has been used, or four at least as similar ones have. */
    ghost predicate Exhausted(i: nat, minimumScore: nat, skip: bool)
      reads this
      requires i < |dst|
    {
      && InQueue(q, src) && |used| == |q|
      && (dst[i].pair.None? ==>
          forall j :: 0 <= j < |src| && Considered(j, skip) && Candidate(j, i, dst[i].two).score >= minimumScore ==>
            !opts.copy && (used[src[j]] > 0 || exists m :: FourBetter(m, Candidate(j, i, dst[i].two)) && AllUsed(m)))
    }

    ghost predicate AllUsed(m: seq<Score>)
      reads this
    {
      && InQueue(q, src) && |used| == |q|
      && forall k :: 0 <= k < |m| ==> m[k].src < |src| && used[src[m[k].src]] > 0
    }

    /** What FindRenames leaves behind. */
    ghost predicate Picked(mx: seq<Score>, minimumScore: nat, copies: bool)
      reads this
    {
      && CandidatesOk(mx) && |used| == |q|
      && forall k :: 0 <= k < |mx| && Usable(mx[k], minimumScore) ==>
          dst[mx[k].dst].pair.Some? || (!copies && used[src[mx[k].src]] > 0)
    }

    lemma FourPicked(mx: seq<Score>, minimumScore: nat, copies: bool, m: seq<Score>, o: Score)
      requires Picked(mx, minimumScore, copies) && FourBetter(m, o) && (forall k :: 0 <= k < |m| ==> m[k] in mx)
      requires 0 <= o.dst < |dst| && dst[o.dst].pair.None? && o.score >= minimumScore
      ensures !copies && AllUsed(m)
    {
      hide Candidate;
      forall k | 0 <= k < |m|
        ensures !copies && m[k].src < |src| && used[src[m[k].src]] > 0
      {
        var n :| 0 <= n < |mx| && mx[n] == m[k];
        assert CandidateOk(mx[n]) && Usable(mx[n], minimumScore);
      }
      assert m[0] in mx;
    }

    lemma PickedExhausts(mx: seq<Score>, minimumScore: nat, skip: bool, i: nat, was: seq<Dst>)
      requires i < |dst| && Picked(mx, minimumScore, opts.copy)
      requires Keeps(was, dst) && AllListed(mx, was, |was|, skip)
      ensures Exhausted(i, minimumScore, skip)
    {
      hide Unmodified, Picked, FourBetter, AllUsed, Base, Similarity, Listed;
      PickedBasics(mx, minimumScore, opts.copy);
      if dst[i].pair.None? {
        forall j | 0 <= j < |src| && Considered(j, skip) && Candidate(j, i, dst[i].two).score >= minimumScore
          ensures !opts.copy
          ensures used[src[j]] > 0 || exists m :: FourBetter(m, Candidate(j, i, dst[i].two)) && AllUsed(m)
        {
          assert was[i].pair.None? && was[i].two == dst[i].two;
          ListedPicked(mx, minimumScore, opts.copy, Candidate(j, i, dst[i].two));
        }
      }
    }

    lemma ListedPicked(mx: seq<Score>, minimumScore: nat, copies: bool, o: Score)
      requires Picked(mx, minimumScore, copies) && Listed(mx, o) && 0 <= o.dst < |dst| && o.src < |src|
      requires dst[o.dst].pair.None? && o.score >= minimumScore
      ensures InQueue(q, src) && |used| == |q| && src[o.src] < |q|
      ensures !copies && (used[src[o.src]] > 0 || exists m :: FourBetter(m, o) && AllUsed(m))
    {
      hide Picked, FourBetter, AllUsed;
      PickedBasics(mx, minimumScore, copies);
      if o in mx {
        OnePicked(mx, minimumScore, copies, o);
      } else {
        var m :| FourBetter(m, o) && forall k :: 0 <= k < |m| ==> m[k] in mx;
        FourPicked(mx, minimumScore, copies, m, o);
      }
    }

    lemma PickedBasics(mx: seq<Score>, minimumScore: nat, copies: bool)
      requires Picked(mx, minimumScore, copies)
      ensures InQueue(q, src) && |used| == |q| && CandidatesOk(mx)
    {
    }

    lemma OnePicked(mx: seq<Score>, minimumScore: nat, copies: bool, o: Score)
      requires Picked(mx, minimumScore, copies) && o in mx && o.dst >= 0 && o.score >= minimumScore
      ensures o.dst < |dst| && o.src < |src| && src[o.src] < |q|
      ensures dst[o.dst].pair.None? ==> !copies && used[src[o.src]] > 0
    {
      hide Candidate;
      var n :| 0 <= n < |mx| && mx[n] == o;
      assert CandidateOk(mx[n]) && Usable(mx[n], minimumScore);
    }

    // ---------------------------------------------------------------- who gets whom

    /** Destination `i` has a source at least as good as `o`. */
    ghost predicate GotAsGood(i: nat, o: Score)
      reads this
      requires InQueue(q, src) && i < |dst|
    {
      exists j :: 0 <= j < |src| && dst[i].pair == Some(src[j]) && ScoreCompare(Candidate(j, i, dst[i].two), o) <= 0
    }

    /** Source `j` was used before, or is the source of a destination at least as good as `o`. */
    ghost predicate UsedAsGood(j: nat, o: Score, used0: seq<nat>)
      reads this
      requires InQueue(q, src) && |used0| == |q|
    {
      && j < |src|
      && (used0[src[j]] > 0 || exists i :: IsUsedAsGood(j, i, o))
    }

    ghost predicate IsUsedAsGood(j: nat, i: nat, o: Score)
      reads this
      requires InQueue(q, src) && j < |src|
    {
      && i < |dst| && dst[i].pair == Some(src[j])
      && exists n :: 0 <= n < |src| && src[n] == src[j] && ScoreCompare(Candidate(n, i, dst[i].two), o) <= 0
    }

    /** No candidate `o` for destination `i` that is similar enough was passed over for a worse one: the destination has
        a source at least as good; or the source is used at least as well; or the same holds of the sources of four
        candidates that are at least as good.  With copies a destination has the best source there is, unless it was
        renamed from one that was not used yet. */
    ghost predicate Deserved(i: nat, minimumScore: nat, skip: bool, dst0: seq<Dst>, used0: seq<nat>)
      reads this
      requires i < |dst|
    {
      && InQueue(q, src) && |used0| == |q| && |dst0| == |dst|
      && (dst0[i].pair.None? ==>
          forall j :: 0 <= j < |src| && Considered(j, skip) && Candidate(j, i, dst[i].two).score >= minimumScore ==>
            CandidateDeserved(i, j, dst0, used0))
    }

    ghost predicate CandidateDeserved(i: nat, j: nat, dst0: seq<Dst>, used0: seq<nat>)
      reads this
      requires InQueue(q, src) && |used0| == |q| && i < |dst| && j < |src|
    {
      var o := Candidate(j, i, dst[i].two);
      && (|| GotAsGood(i, o)
          || UsedAsGood(j, o, used0)
          || exists m :: FourBetter(m, o) && FourUsed(m, used0))
      && (opts.copy ==> GotAsGood(i, o) || (dst[i].pair.Some? && WasUnused(dst[i].pair.value, used0)))
    }

    ghost predicate FourUsed(m: seq<Score>, used0: seq<nat>)
      reads this
      requires InQueue(q, src) && |used0| == |q|
    {
      forall k :: 0 <= k < |m| ==> UsedAsGood(m[k].src, m[k], used0)
    }

    static predicate WasUnused(s: nat, used0: seq<nat>) {
      s < |used0| && used0[s] == 0
    }

    lemma GotIsGood(mx: seq<Score>, o: Score, i: nat)
      requires CandidatesOk(mx) && DstGot(src, dst, mx, o) && o.dst == i < |dst|
      ensures GotAsGood(i, o)
    {
      hide Similarity, Base, ScoreCompare;
      var c :| c in mx && Took(src, dst, c) && c.dst == o.dst && ScoreCompare(c, o) <= 0;
      var k :| 0 <= k < |mx| && mx[k] == c;
      assert CandidateOk(mx[k]);
    }

    lemma GoneIsUsed(mx: seq<Score>, o: Score, used0: seq<nat>)
      requires CandidatesOk(mx) && SrcGone(src, dst, mx, o) && |used0| == |q|
      ensures UsedAsGood(o.src, o, used0)
    {
      hide Similarity, Base, ScoreCompare;
      var c :| c in mx && Took(src, dst, c) && src[c.src] == src[o.src] && ScoreCompare(c, o) <= 0;
      var k :| 0 <= k < |mx| && mx[k] == c;
      assert CandidateOk(mx[k]);
      assert IsUsedAsGood(o.src, c.dst, o);
    }

    /** A candidate in the matrix for a destination that had no match. */
    lemma FairIsDeserved(mx: seq<Score>, o: Score, i: nat, dst0: seq<Dst>, used0: seq<nat>, copies: bool)
      requires CandidatesOk(mx) && |used0| == |q| && Fair(src, dst, mx, o, dst0, used0, copies)
      requires o.dst == i < |dst| == |dst0| && dst0[i].pair.None?
      ensures GotAsGood(i, o) || (!copies && UsedAsGood(o.src, o, used0))
    {
      hide ScoreCompare, Candidate, DstGot, SrcGone;
      if DstGot(src, dst, mx, o) {
        GotIsGood(mx, o, i);
      } else if SrcGone(src, dst, mx, o) {
        GoneIsUsed(mx, o, used0);
      }
    }

    lemma GotBetter(i: nat, o: Score, o': Score)
      requires InQueue(q, src) && i < |dst| && GotAsGood(i, o) && ScoreCompare(o, o') <= 0
      ensures GotAsGood(i, o')
    {
      hide Candidate;
      var j :| 0 <= j < |src| && dst[i].pair == Some(src[j]) && ScoreCompare(Candidate(j, i, dst[i].two), o) <= 0;
      ScoreTrans(Candidate(j, i, dst[i].two), o, o');
    }

    /** Any considered candidate, in the matrix or beaten by four that are. */
    lemma ListedIsDeserved(mx: seq<Score>, minimumScore: nat, o: Score, i: nat, dst0: seq<Dst>, used0: seq<nat>,
                           copies: bool)
      requires CandidatesOk(mx) && |used0| == |q| && AllFair(src, dst, mx, |mx|, minimumScore, dst0, used0, copies)
      requires o.dst == i < |dst| == |dst0| && dst0[i].pair.None? && Listed(mx, o) && o.score >= minimumScore
      ensures
        || GotAsGood(i, o)
        || (!copies && (UsedAsGood(o.src, o, used0) || exists m :: FourBetter(m, o) && FourUsed(m, used0)))
    {
      hide Candidate, Fair, GotAsGood, UsedAsGood;
      if o in mx {
        var k :| 0 <= k < |mx| && mx[k] == o;
        FairIsDeserved(mx, o, i, dst0, used0, copies);
      } else {
        var m: seq<Score> :| FourBetter(m, o) && forall k :: 0 <= k < |m| ==> m[k] in mx;
        forall k | 0 <= k < |m|
          ensures GotAsGood(i, o) || (!copies && UsedAsGood(m[k].src, m[k], used0))
        {
          var n :| 0 <= n < |mx| && mx[n] == m[k];
          FairIsDeserved(mx, m[k], i, dst0, used0, copies);
          if GotAsGood(i, m[k]) { GotBetter(i, m[k], o); }
        }
        assert m[0] in mx;
        assert GotAsGood(i, o) || FourUsed(m, used0);
      }
    }

    /** With both passes done. */
    lemma BothPasses(mx: seq<Score>, minimumScore: nat, skip: bool, i: nat, dst0: seq<Dst>, used0: seq<nat>,
                     dst1: seq<Dst>, used1: seq<nat>)
      requires i < |dst| && CandidatesOk(mx) && |used0| == |used1| == |q|
      requires Keeps(dst0, dst1) && Keeps(dst1, dst) && AllListed(mx, dst0, |dst0|, skip)
      requires AllFair(src, dst1, mx, |mx|, minimumScore, dst0, used0, false) && FromUnused(dst0, used0, dst1)
      requires if opts.copy then AllFair(src, dst, mx, |mx|, minimumScore, dst1, used1, true) else dst1 == dst
      ensures Deserved(i, minimumScore, skip, dst0, used0)
    {
      hide CandidatesOk, FourBetter, FourUsed, GotAsGood, UsedAsGood, Candidate, Listed, AllFair, Unmodified;
      CandidatesBasics(mx);
      AllStayFair(src, dst1, dst, mx, |mx|, minimumScore, dst0, used0, false);
      if dst0[i].pair.None? {
        forall j | 0 <= j < |src| && Considered(j, skip) && Candidate(j, i, dst[i].two).score >= minimumScore
          ensures CandidateDeserved(i, j, dst0, used0)
        {
          var o := Candidate(j, i, dst[i].two);
          IsCandidate(j, i);
          assert dst0[i].two == dst[i].two && Listed(mx, o);
          ListedIsDeserved(mx, minimumScore, o, i, dst0, used0, false);
          if opts.copy && dst1[i].pair.None? {
            ListedIsDeserved(mx, minimumScore, o, i, dst1, used1, true);
          }
        }
      }
    }

    lemma CandidatesBasics(mx: seq<Score>)
      requires CandidatesOk(mx)
      ensures InQueue(q, src)
    {
    }

    lemma IsCandidate(j: nat, i: nat)
      requires InQueue(q, src) && j < |src| && i < |dst|
      ensures Candidate(j, i, dst[i].two).dst == i && Candidate(j, i, dst[i].two).src == j
    {
    }

    /** Inexact renames first, and with copies the same candidates again for used sources. */
    method FindInexactRenames(renameCount: nat, minimumScore: nat, skip: bool)
      requires Valid() && Matched(dst) == renameCount && minimumScore > 0
      modifies this`used, this`dst
      ensures Valid() && Keeps(old(dst), dst) && old(|used|) == |q| && UsedMore(old(used), used)
      ensures forall i :: 0 <= i < |dst| ==> Exhausted(i, minimumScore, skip)
      ensures forall i :: 0 <= i < |dst| ==> Deserved(i, minimumScore, skip, old(dst), old(used))
    {
      hide Books, Matched, Sorted, AllListed, Exhausted, Picked, CandidatesOk, Deserved, AllFair, FromUnused;
      UsedFits();
      var mx := BuildMatrix(renameCount, skip);
      ghost var was, used0 := dst, used;
      var n := FindRenames(mx, minimumScore, false);
      PickedBasics(mx, minimumScore, false);
      ghost var dst1, used1 := dst, used;
      if opts.copy {
        var m := FindRenames(mx, minimumScore, true);
      }
      forall i | 0 <= i < |dst|
        ensures Exhausted(i, minimumScore, skip) && Deserved(i, minimumScore, skip, was, used0)
      {
        PickedExhausts(mx, minimumScore, skip, i, was);
        PickedBasics(mx, minimumScore, opts.copy);
        BothPasses(mx, minimumScore, skip, i, was, used0, dst1, used1);
      }
    }

    // ---------------------------------------------------------------- limits

    predicate FitsLimit(numCreate: nat, numSrc: nat) {
      var limit := if opts.renameLimit <= 0 || opts.renameLimit > 32767 then 32767 else opts.renameLimit;
      (numCreate <= limit || numSrc <= limit) && numCreate * numSrc <= limit * limit
    }

    /** The matrix has no more places than the square of the limit, which is 32767 unless a smaller one is set. */
    ghost predicate InSquare(numCreate: nat, numSrc: nat) {
      var limit := if 0 < opts.renameLimit <= 32767 then opts.renameLimit else 32767;
      numCreate * numSrc <= limit * limit
    }

    lemma FitsIsInSquare(numCreate: nat, numSrc: nat)
      ensures FitsLimit(numCreate, numSrc) <==> InSquare(numCreate, numSrc)
    {
      var limit := if 0 < opts.renameLimit <= 32767 then opts.renameLimit else 32767;
      if numCreate > limit && numSrc > limit { BiggerThanSquare(numCreate, numSrc, limit); }
    }

    static lemma BiggerThanSquare(a: nat, b: nat, limit: nat)
      requires a > limit && b > limit
      ensures a * b > limit * limit
    {
      assert a * b == limit * limit + limit * (b - limit) + (a - limit) * b;
    }

    function ModifiedSources(n: nat): nat
      reads this
      requires InQueue(q, src) && n <= |src|
    {
      if n == 0 then 0 else ModifiedSources(n - 1) + if Unmodified(q[src[n - 1]]) then 0 else 1
    }

    /** 0 if the matrix fits the limit, 2 if it does without unmodified sources, 1 if it is too big. */
    method TooManyRenameCandidates(numCreate: nat) returns (r: nat)
      requires InQueue(q, src)
      ensures r == if InSquare(numCreate, |src|) then 0
        else if opts.copiesHarder && InSquare(numCreate, ModifiedSources(|src|)) then 2 else 1
    {
      hide Unmodified, FitsLimit, InSquare;
      FitsIsInSquare(numCreate, |src|);
      FitsIsInSquare(numCreate, ModifiedSources(|src|));
      if FitsLimit(numCreate, |src|) {
        return 0;
      }
      if !opts.copiesHarder {
        return 1;
      }
      var numSrc := 0;
      for i := 0 to |src|
        invariant numSrc == ModifiedSources(i)
      {
        if Unmodified(q[src[i]]) {
          continue;
        }
        numSrc := numSrc + 1;
      }
      return if FitsLimit(numCreate, numSrc) then 2 else 1;
    }

    /** With `left` destinations still to match, no destination can be matched any more; unless the matrix is too big,
        even without unmodified sources. */
    ghost predicate AllExhausted(left: nat, minimumScore: nat)
      reads this
    {
      && InQueue(q, src)
      && if InSquare(left, |src|) then forall k :: 0 <= k < |dst| ==> Exhausted(k, minimumScore, false)
         else opts.copiesHarder && InSquare(left, ModifiedSources(|src|)) ==>
           forall k :: 0 <= k < |dst| ==> Exhausted(k, minimumScore, true)
    }

    /** And nobody was passed over since the exact renames, in `dst1` and `used1`. */
    ghost predicate AllDeserved(left: nat, minimumScore: nat, dst1: seq<Dst>, used1: seq<nat>)
      reads this
    {
      && InQueue(q, src)
      && if InSquare(left, |src|) then forall k :: 0 <= k < |dst| ==> Deserved(k, minimumScore, false, dst1, used1)
         else opts.copiesHarder && InSquare(left, ModifiedSources(|src|)) ==>
           forall k :: 0 <= k < |dst| ==> Deserved(k, minimumScore, true, dst1, used1)
    }

    lemma NothingToMatch(left: nat, minimumScore: nat)
      requires InQueue(q, src) && |used| == |q|
      requires src == [] || forall k :: 0 <= k < |dst| ==> dst[k].pair.Some?
      ensures AllExhausted(left, minimumScore) && AllDeserved(left, minimumScore, dst, used)
    {
    }

    lemma NothingExact()
      ensures ExactOnly(dst, dst)
    {
    }

    /** Exact renames, then inexact ones if they are asked for, needed, and not too many. */
    method MatchAll(minimumScore: nat) returns (ghost left: nat, ghost dst1: seq<Dst>, ghost used1: seq<nat>)
      requires Valid() && minimumScore > 0 && forall k :: 0 <= k < |dst| ==> dst[k].pair.None?
      modifies this`used, this`dst
      ensures Valid() && Keeps(old(dst), dst) && |used| == |q|
      ensures forall k :: 0 <= k < |dst| ==> Settled(k)
      ensures left + Matched(dst1) == |dst| && (minimumScore != MAX_SCORE ==> AllExhausted(left, minimumScore))
      ensures Keeps(old(dst), dst1) && ExactOnly(old(dst), dst1) && Books(q, opts.copy, used1, dst1, src)
      ensures Keeps(dst1, dst)
      ensures if minimumScore == MAX_SCORE then dst == dst1 else AllDeserved(left, minimumScore, dst1, used1)
    {
      hide Books, Matched, Exhausted, Deserved, Eligible, InSquare, ModifiedSources, ExactOnly;
      UsedFits();
      left, dst1, used1 := |dst|, dst, used;
      NoneMatched(dst);
      NothingExact();
      if |dst| == 0 || |src| == 0 {
        NothingToMatch(left, minimumScore);
        return;
      }
      var renameCount := FindExactRenames();
      UsedFits();
      AllMatched(dst);
      left, dst1, used1 := |dst| - renameCount, dst, used;
      if minimumScore == MAX_SCORE {
        return;
      }
      if renameCount == |dst| {
        NothingToMatch(left, minimumScore);
        return;
      }
      var tooMany := TooManyRenameCandidates(|dst| - renameCount);
      if tooMany == 1 {
        return;
      }
      label L:
      FindInexactRenames(renameCount, minimumScore, tooMany == 2);
      forall k | 0 <= k < |dst|
        ensures Settled(k)
      {
        StaysSettled@L(k);
      }
      UsedFits();
    }
  }

  lemma {:induction false} AllMatched(dst: seq<Dst>)
    ensures Matched(dst) <= |dst| && (Matched(dst) == |dst| ==> forall k :: 0 <= k < |dst| ==> dst[k].pair.Some?)
  {
    if dst != [] { AllMatched(dst[..|dst| - 1]); }
  }

  lemma NextMatched(dst: seq<Dst>, i: nat)
    requires i < |dst|
    ensures Matched(dst[..i + 1]) == Matched(dst[..i]) + if dst[i].pair.Some? then 1 else 0
  {
    assert dst[..i + 1][..i] == dst[..i];
  }

  lemma {:induction false} NoneMatched(dst: seq<Dst>)
    requires forall k :: 0 <= k < |dst| ==> dst[k].pair.None?
    ensures Matched(dst) == 0
  {
    if dst != [] { NoneMatched(dst[..|dst| - 1]); }
  }
}
