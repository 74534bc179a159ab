/** The queue rename detection puts out, and its final status letters (diffcore-rename.c:598-690,
    diff.c:4024-4089). */
module RenameResult {
  import opened Common
  import opened Strings
  import opened RenameSpec
  import opened RenameTables
  import opened Rename

  /** An original pair, by its place, or a created file paired with its source. */
  datatype Out = Kept(i: nat) | Renamed(src: nat, two: FileSpec)

  /** The destination with this path. */
  function Find(dst: seq<Dst>, path: string): (k: Option<nat>)
    ensures k.Some? ==> k.value < |dst| && dst[k.value].two.path == path
    ensures k.None? ==> forall m :: 0 <= m < |dst| ==> dst[m].two.path != path
  {
    if dst == [] then None
    else if dst[|dst| - 1].two.path == path then Some(|dst| - 1)
    else
      assert forall m :: 0 <= m < |dst| - 1 ==> dst[..|dst| - 1][m] == dst[m];
      Find(dst[..|dst| - 1], path)
  }

  lemma FindIs(dst: seq<Dst>, k: nat)
    requires Ascending(DstPaths(dst)) && k < |dst|
    ensures Find(dst, dst[k].two.path) == Some(k)
  {
    hide Ascending, StrCmp, Find;
    var f := Find(dst, dst[k].two.path);
    if f.Some? { AscendingDistinct(DstPaths(dst), f.value, k); }
  }

  /** The source a created file is matched with. */
  function MatchOf(dst: seq<Dst>, path: string): Option<nat> {
    var k := Find(dst, path);
    if k.Some? then dst[k.value].pair else None
  }

  /** What comes out for the pair at `i`. */
  function OutOf(q: seq<Pair>, used: seq<nat>, dst: seq<Dst>, i: nat): seq<Out>
    requires i < |q| == |used|
  {
    var p := q[i];
    if Creation(p) then
      var k := Find(dst, p.two.path);
      if k.Some? && dst[k.value].pair.Some? then [Renamed(dst[k.value].pair.value, dst[k.value].two)] else [Kept(i)]
    else if Deletion(p) then if used[i] > 0 then [] else [Kept(i)]
    else if !Unmodified(p) then [Kept(i)]
    else []
  }

  function Final(q: seq<Pair>, used: seq<nat>, dst: seq<Dst>, n: nat): seq<Out>
    requires n <= |q| == |used|
  {
    if n == 0 then [] else Final(q, used, dst, n - 1) + OutOf(q, used, dst, n - 1)
  }

  // ---------------------------------------------------------------- the post-image is preserved

  datatype Image = Image(path: string, mode: nat, sha: Sha)

  function ImageOf(s: FileSpec): seq<Image> {
    if Valid(s) then [Image(s.path, s.mode, s.sha)] else []
  }

  ghost predicate Placed(q: seq<Pair>, out: seq<Out>) {
    forall k :: 0 <= k < |out| && out[k].Kept? ==> out[k].i < |q|
  }

  ghost function Images(q: seq<Pair>, out: seq<Out>): seq<Image>
    requires Placed(q, out)
  {
    if out == [] then []
    else
      var last := out[|out| - 1];
      Images(q, out[..|out| - 1]) + ImageOf(if last.Kept? then q[last.i].two else last.two)
  }

  /** Nothing has happened to the file: one path, one mode, and the same clean contents on both sides, or both sides
      are the work tree's. */
  ghost predicate SameFile(p: Pair) {
    && p.one.path == p.two.path && p.one.mode == p.two.mode
    && if p.one.shaValid then p.two.shaValid && p.one.sha == p.two.sha && !p.one.dirty && !p.two.dirty
       else !p.two.shaValid
  }

  lemma SameFileIs(p: Pair)
    ensures SameFile(p) <==> Unmodified(p)
  {
  }

  /** The new side of every pair that something has happened to, in order. */
  ghost function Wanted(q: seq<Pair>, n: nat): seq<Image>
    requires n <= |q|
  {
    if n == 0 then []
    else
      var p := q[n - 1];
      Wanted(q, n - 1) + if SameFile(p) || p.two.mode == 0 then [] else [Image(p.two.path, p.two.mode, p.two.sha)]
  }

  lemma NoneWanted(q: seq<Pair>)
    ensures Wanted(q, 0) == []
  {
  }

  lemma WantedNext(q: seq<Pair>, n: nat)
    requires 0 < n <= |q|
    ensures Wanted(q, n) == Wanted(q, n - 1) + if Unmodified(q[n - 1]) then [] else ImageOf(q[n - 1].two)
  {
    SameFileIs(q[n - 1]);
  }

  lemma {:induction false} ImagesAppend(q: seq<Pair>, a: seq<Out>, b: seq<Out>)
    requires Placed(q, a) && Placed(q, b)
    ensures Placed(q, a + b) && Images(q, a + b) == Images(q, a) + Images(q, b)
  {
    hide ImageOf;
    var r := a + b;
    assert forall k :: 0 <= k < |r| ==> r[k] == if k < |a| then a[k] else b[k - |a|];
    assert Placed(q, r);
    if b == [] {
      assert a + b == a;
    } else {
      assert (a + b)[..|a + b| - 1] == a + b[..|b| - 1];
      ImagesAppend(q, a, b[..|b| - 1]);
    }
  }

  /** A matched destination has the post-image of the creation with its path. */
  lemma MatchHasImage(q: seq<Pair>, copy: bool, used: seq<nat>, dst: seq<Dst>, src: seq<nat>, i: nat, k: nat)
    requires WfQueue(q) && Books(q, copy, used, dst, src) && i < |q| && k < |dst| && dst[k].two.path == q[i].two.path
    ensures SamePost(dst[k].two, q[i].two) && Creation(q[i])
  {
    hide Counted, MatchesOk, Ascending;
    assert IsCreated(q, dst[k].two);
    var j :| 0 <= j < |q| && Creation(q[j]) && SamePost(dst[k].two, q[j].two);
    if j != i { assert q[i].two.path == q[j].two.path; }
  }

  lemma {:induction false} OutImage(q: seq<Pair>, copy: bool, used: seq<nat>, dst: seq<Dst>, src: seq<nat>, i: nat)
    requires WfQueue(q) && Books(q, copy, used, dst, src) && i < |q| == |used|
    ensures Placed(q, OutOf(q, used, dst, i))
    ensures Images(q, OutOf(q, used, dst, i)) == if Unmodified(q[i]) then [] else ImageOf(q[i].two)
  {
    hide Books, Find;
    var o := OutOf(q, used, dst, i);
    assert |o| <= 1;
    if o != [] { assert o[..0] == []; }
    if Creation(q[i]) {
      var k := Find(dst, q[i].two.path);
      if k.Some? { MatchHasImage(q, copy, used, dst, src, i, k.value); }
    }
  }

  /** Renames or not, the output has the new files of the input, each once, in the same order. */
  lemma {:induction false} PostImageKept(q: seq<Pair>, copy: bool, used: seq<nat>, dst: seq<Dst>, src: seq<nat>, n: nat)
    requires WfQueue(q) && Books(q, copy, used, dst, src) && n <= |q|
    ensures |used| == |q| && Placed(q, Final(q, used, dst, n)) && Images(q, Final(q, used, dst, n)) == Wanted(q, n)
  {
    hide OutOf, Unmodified, ImageOf, TablesOk, MatchesOk, Books, Wanted;
    AscendingDsts(q, copy, used, dst, src);
    NoneWanted(q);
    if n > 0 {
      PostImageKept(q, copy, used, dst, src, n - 1);
      WantedNext(q, n);
      OutImage(q, copy, used, dst, src, n - 1);
      ImagesAppend(q, Final(q, used, dst, n - 1), OutOf(q, used, dst, n - 1));
    }
  }

  // ---------------------------------------------------------------- who is renamed from where

  function CountFrom(out: seq<Out>, s: nat): nat {
    if out == [] then 0
    else CountFrom(out[..|out| - 1], s) + if out[|out| - 1].Renamed? && out[|out| - 1].src == s then 1 else 0
  }

  lemma {:induction false} CountAppend(a: seq<Out>, b: seq<Out>, s: nat)
    ensures CountFrom(a + b, s) == CountFrom(a, s) + CountFrom(b, s)
  {
    if b == [] {
      assert a + b == a;
    } else {
      assert (a + b)[..|a + b| - 1] == a + b[..|b| - 1];
      CountAppend(a, b[..|b| - 1], s);
    }
  }

  /** The created paths among the first `n` pairs that are matched with `s`. */
  ghost function From(q: seq<Pair>, dst: seq<Dst>, n: nat, s: nat): set<string>
    requires n <= |q|
  {
    set j | 0 <= j < n && Creation(q[j]) && MatchOf(dst, q[j].two.path) == Some(s) :: q[j].two.path
  }

  predicate ComesFrom(q: seq<Pair>, dst: seq<Dst>, i: nat, s: nat)
    requires i < |q|
  {
    Creation(q[i]) && MatchOf(dst, q[i].two.path) == Some(s)
  }

  lemma FromGrows(q: seq<Pair>, dst: seq<Dst>, n: nat, s: nat)
    requires WfQueue(q) && n < |q|
    ensures |From(q, dst, n + 1, s)| == |From(q, dst, n, s)| + if ComesFrom(q, dst, n, s) then 1 else 0
  {
    hide MatchOf;
    var path := q[n].two.path;
    assert path !in From(q, dst, n, s);
    if ComesFrom(q, dst, n, s) {
      assert From(q, dst, n + 1, s) == From(q, dst, n, s) + {path};
    } else {
      assert From(q, dst, n + 1, s) == From(q, dst, n, s);
    }
  }

  lemma OutCounts(q: seq<Pair>, used: seq<nat>, dst: seq<Dst>, i: nat, s: nat)
    requires i < |q| == |used|
    ensures CountFrom(OutOf(q, used, dst, i), s) == if ComesFrom(q, dst, i, s) then 1 else 0
  {
    hide Find, Unmodified;
    CountSingle(OutOf(q, used, dst, i), s);
  }

  lemma {:induction false} CountIsFrom(q: seq<Pair>, used: seq<nat>, dst: seq<Dst>, n: nat, s: nat)
    requires WfQueue(q) && n <= |q| == |used|
    ensures CountFrom(Final(q, used, dst, n), s) == |From(q, dst, n, s)|
  {
    hide OutOf, ComesFrom;
    if n == 0 {
      assert From(q, dst, n, s) == {};
    } else {
      CountIsFrom(q, used, dst, n - 1, s);
      CountAppend(Final(q, used, dst, n - 1), OutOf(q, used, dst, n - 1), s);
      OutCounts(q, used, dst, n - 1, s);
      FromGrows(q, dst, n - 1, s);
    }
  }

  lemma CountSingle(o: seq<Out>, s: nat)
    requires |o| <= 1
    ensures CountFrom(o, s) == if o != [] && o[0].Renamed? && o[0].src == s then 1 else 0
  {
    if o != [] { assert o[..0] == []; }
  }

  /** Every match comes out: as many renames from a source as it has matches. */
  lemma FromIsClaimed(q: seq<Pair>, copy: bool, used: seq<nat>, dst: seq<Dst>, src: seq<nat>, s: nat)
    requires WfQueue(q) && Books(q, copy, used, dst, src)
    ensures From(q, dst, |q|, s) == Claimed(dst, s)
  {
    hide Ascending, Counted, MatchesOk, Find, SrcPaths;
    forall x | x in Claimed(dst, s)
      ensures x in From(q, dst, |q|, s)
    {
      var k :| 0 <= k < |dst| && dst[k].pair == Some(s) && dst[k].two.path == x;
      FindIs(dst, k);
      assert IsCreated(q, dst[k].two);
      var j :| 0 <= j < |q| && Creation(q[j]) && SamePost(dst[k].two, q[j].two);
      assert MatchOf(dst, q[j].two.path) == Some(s);
    }
    forall x | x in From(q, dst, |q|, s)
      ensures x in Claimed(dst, s)
    {
      var j :| 0 <= j < |q| && Creation(q[j]) && MatchOf(dst, q[j].two.path) == Some(s) && q[j].two.path == x;
      var k := Find(dst, x);
      assert dst[k.value].pair == Some(s);
    }
  }

  /** The use count a source is left with: its renames in the output, and one more if it stays. */
  lemma UsesAreRenames(q: seq<Pair>, copy: bool, used: seq<nat>, dst: seq<Dst>, src: seq<nat>, s: nat)
    requires WfQueue(q) && Books(q, copy, used, dst, src) && s < |q|
    ensures |used| == |q|
    ensures used[s] == SelfUse(copy, q, src, s) + CountFrom(Final(q, used, dst, |q|), s)
    ensures !copy ==> CountFrom(Final(q, used, dst, |q|), s) <= 1
  {
    hide TablesOk, MatchesOk, Final;
    CountIsFrom(q, used, dst, |q|, s);
    FromIsClaimed(q, copy, used, dst, src, s);
  }

  /** What is not put out itself: unmodified pairs, created files put out as renames, and deleted files that
      something is renamed from. */
  lemma DroppedExactly(q: seq<Pair>, copy: bool, used: seq<nat>, dst: seq<Dst>, src: seq<nat>, i: nat)
    requires WfQueue(q) && Books(q, copy, used, dst, src) && i < |q|
    ensures |used| == |q|
    ensures var out := Final(q, used, dst, |q|);
      Kept(i) !in out <==>
        || Unmodified(q[i])
        || (Deletion(q[i]) && CountFrom(out, i) > 0)
        || (Creation(q[i]) && MatchOf(dst, q[i].two.path).Some?)
  {
    hide TablesOk, MatchesOk, Find;
    assert Counted(q, copy, used, dst, src);
    UsesAreRenames(q, copy, used, dst, src, i);
    KeptWhere(q, used, dst, |q|, i);
  }

  lemma {:induction false} KeptWhere(q: seq<Pair>, used: seq<nat>, dst: seq<Dst>, n: nat, i: nat)
    requires n <= |q| == |used| && i < |q|
    ensures Kept(i) in Final(q, used, dst, n) <==> i < n && OutOf(q, used, dst, i) == [Kept(i)]
  {
    hide Find, Unmodified;
    if n > 0 { KeptWhere(q, used, dst, n - 1, i); }
  }

  // ---------------------------------------------------------------- status letters

  datatype Status =
    StatusAdded | StatusDeleted | StatusTypeChanged | StatusModified | StatusCopied | StatusRenamed | StatusUnknown

  function Sides(q: seq<Pair>, o: Out): Pair
    requires (o.Kept? && o.i < |q|) || (o.Renamed? && o.src < |q|)
  {
    if o.Kept? then q[o.i] else Pair(q[o.src].one, o.two)
  }

  ghost predicate Known(q: seq<Pair>, out: seq<Out>) {
    forall k :: 0 <= k < |out| ==> if out[k].Kept? then out[k].i < |q| else out[k].src < |q|
  }

  /** A rename that gets R or C: between different paths and files of one type. */
  predicate Moves(q: seq<Pair>, o: Out)
    requires (o.Kept? && o.i < |q|) || (o.Renamed? && o.src < |q|)
  {
    var p := Sides(q, o);
    o.Renamed? && Valid(p.one) && Valid(p.two) && Type(p.one.mode) == Type(p.two.mode) && p.one.path != p.two.path
  }

  /** How many of the first `n` move source `s`. */
  ghost function MovesFrom(q: seq<Pair>, out: seq<Out>, n: nat, s: nat): nat
    requires Known(q, out) && n <= |out|
  {
    if n == 0 then 0 else MovesFrom(q, out, n - 1, s) + if Moves(q, out[n - 1]) && out[n - 1].src == s then 1 else 0
  }

  /** What the letter must be: the pair's own change, or for a rename whether its source is used again. */
  ghost predicate StatusIs(q: seq<Pair>, used: seq<nat>, out: seq<Out>, k: nat, st: Status)
    requires Known(q, out) && k < |out| && |used| == |q|
  {
    var p := Sides(q, out[k]);
    if !Valid(p.one) then st == StatusAdded
    else if !Valid(p.two) then st == StatusDeleted
    else if Type(p.one.mode) != Type(p.two.mode) then st == StatusTypeChanged
    else if out[k].Renamed? then
      if p.one.path == p.two.path then st == StatusModified
      else st == if used[out[k].src] - MovesFrom(q, out, k + 1, out[k].src) > 0 then StatusCopied else StatusRenamed
    else st == if p.one.sha != p.two.sha || p.one.mode != p.two.mode || p.one.dirty || p.two.dirty || p.one.sha == 0
      then StatusModified else StatusUnknown
  }

  /** Every rename in the output is between files of one type and different paths. */
  ghost predicate RenamesPlain(q: seq<Pair>, out: seq<Out>) {
    Known(q, out) && forall k :: 0 <= k < |out| && out[k].Renamed? ==> Moves(q, out[k])
  }

  lemma {:induction false} PlainMoves(q: seq<Pair>, out: seq<Out>, n: nat, s: nat)
    requires RenamesPlain(q, out) && n <= |out|
    ensures MovesFrom(q, out, n, s) == CountFrom(out[..n], s)
  {
    hide Sides, Type;
    if n > 0 {
      PlainMoves(q, out, n - 1, s);
      NextFrom(out, n - 1);
    }
  }

  /** Giving out the letters, counting the uses of each source down. */
  method ResolveRenameCopy(q: seq<Pair>, used0: seq<nat>, out: seq<Out>) returns (status: seq<Status>)
    requires Known(q, out) && |used0| == |q|
    ensures |status| == |out| && forall k :: 0 <= k < |out| ==> StatusIs(q, used0, out, k, status[k])
  {
    hide Type;
    var used: seq<int> := used0;
    status := [];
    for k := 0 to |out|
      invariant |status| == k && |used| == |q|
      invariant forall s :: 0 <= s < |q| ==> used[s] == used0[s] - MovesFrom(q, out, k, s)
      invariant forall m :: 0 <= m < k ==> StatusIs(q, used0, out, m, status[m])
    {
      var p := Sides(q, out[k]);
      var st;
      if !Valid(p.one) {
        st := StatusAdded;
      } else if !Valid(p.two) {
        st := StatusDeleted;
      } else if Type(p.one.mode) != Type(p.two.mode) {
        st := StatusTypeChanged;
      } else if out[k].Renamed? {
        if p.one.path == p.two.path {
          st := StatusModified;
        } else {
          used := used[out[k].src := used[out[k].src] - 1];
          st := if used[out[k].src] > 0 then StatusCopied else StatusRenamed;
        }
      } else if p.one.sha != p.two.sha || p.one.mode != p.two.mode || p.one.dirty || p.two.dirty || p.one.sha == 0 {
        st := StatusModified;
      } else {
        st := StatusUnknown;
      }
      status := status + [st];
    }
  }

  lemma NextFrom(out: seq<Out>, k: nat)
    requires k < |out|
    ensures forall s: nat ::
      CountFrom(out[..k + 1], s) == CountFrom(out[..k], s) + if out[k].Renamed? && out[k].src == s then 1 else 0
  {
    assert out[..k + 1][..k] == out[..k];
  }

  /** The letters of a source's renames, given that its use count is its renames plus one if it stays: the last
      rename of a vanished source is R, all others are C. */
  lemma LastIsRename(q: seq<Pair>, used: seq<nat>, out: seq<Out>, k: nat, st: Status, stays: nat)
    requires RenamesPlain(q, out) && |used| == |q| && k < |out| && out[k].Renamed? && StatusIs(q, used, out, k, st)
    requires used[out[k].src] == stays + CountFrom(out, out[k].src)
    ensures st == if stays == 0 && CountFrom(out[k + 1..], out[k].src) == 0 then StatusRenamed else StatusCopied
  {
    var s := out[k].src;
    assert out == out[..k + 1] + out[k + 1..];
    CountAppend(out[..k + 1], out[k + 1..], s);
    PlainMoves(q, out, k + 1, s);
    assert Moves(q, out[k]);
  }

  // ---------------------------------------------------------------- the whole

  /** A rename in the output connects a created file to another path's file of the same type. */
  lemma {:induction false} FinalPlain(q: seq<Pair>, copy: bool, used: seq<nat>, dst: seq<Dst>, src: seq<nat>, n: nat)
    requires WfQueue(q) && Books(q, copy, used, dst, src) && n <= |q|
    ensures |used| == |q| && RenamesPlain(q, Final(q, used, dst, n))
  {
    hide TablesOk, MatchesOk, OutOf, Type;
    if n > 0 {
      FinalPlain(q, copy, used, dst, src, n - 1);
      OutPlain(q, copy, used, dst, src, n - 1);
    }
  }

  lemma {:induction false} OutPlain(q: seq<Pair>, copy: bool, used: seq<nat>, dst: seq<Dst>, src: seq<nat>, i: nat)
    requires WfQueue(q) && Books(q, copy, used, dst, src) && i < |q| == |used|
    ensures RenamesPlain(q, OutOf(q, used, dst, i)) && |OutOf(q, used, dst, i)| <= 1
  {
    hide Find, Counted, Ascending, Type, IsCreated, Unmodified;
    var o := OutOf(q, used, dst, i);
    if o != [] && o[0].Renamed? {
      var k := Find(dst, q[i].two.path).value;
      MatchHasImage(q, copy, used, dst, src, i, k);
      var s := dst[k].pair.value;
      var m :| 0 <= m < |src| && src[m] == s;
      assert IsSource(copy, q[src[m]]);
      PathsDiffer(q, s, i);
    }
  }

  lemma PathsDiffer(q: seq<Pair>, s: nat, i: nat)
    requires WfQueue(q) && s < |q| && i < |q| && s != i
    ensures q[s].one.path != q[i].two.path
  {
    assert q[s].two.path != q[i].two.path;
  }

  /** Putting the queue together. */
  method CollectQueue(r: Renames) returns (out: seq<Out>)
    requires r.Valid()
    modifies r`dst
    ensures r.dst == old(r.dst) && |r.used| == |r.q| && out == Final(r.q, r.used, r.dst, |r.q|)
  {
    hide TablesOk, MatchesOk, Find, Unmodified;
    AscendingDsts(r.q, r.opts.copy, r.used, r.dst, r.src);
    out := [];
    for i := 0 to |r.q|
      invariant r.dst == old(r.dst) && |r.used| == |r.q| && out == Final(r.q, r.used, r.dst, i)
    {
      var p := r.q[i];
      if !Valid(p.one) && Valid(p.two) {
        LocatedIsFound(r.dst, p.two.path);
        var at := r.LocateDst(p.two, false);
        if at.Some? && r.dst[at.value].pair.Some? {
          FindIs(r.dst, at.value);
          out := out + [Renamed(r.dst[at.value].pair.value, r.dst[at.value].two)];
        } else {
          if at.Some? { FindIs(r.dst, at.value); }
          out := out + [Kept(i)];
        }
      } else if Valid(p.one) && !Valid(p.two) {
        if r.used[i] == 0 {
          out := out + [Kept(i)];
        }
      } else if !Unmodified(p) {
        out := out + [Kept(i)];
      }
    }
  }

  lemma AscendingDsts(q: seq<Pair>, copy: bool, used: seq<nat>, dst: seq<Dst>, src: seq<nat>)
    requires Books(q, copy, used, dst, src)
    ensures Ascending(DstPaths(dst)) && |used| == |q|
  {
  }

  lemma LocatedIsFound(dst: seq<Dst>, path: string)
    ensures Find(dst, path).Some? <==> path in DstPaths(dst)
  {
    hide Find;
    var k := Find(dst, path);
    if k.Some? { assert DstPaths(dst)[k.value] == path; }
  }

  function MinimumScore(opts: Options): nat {
    if opts.renameScore == 0 then DEFAULT_RENAME_SCORE else opts.renameScore
  }

  /** What detection has done.  The tables have exactly the files of interest, and their books are true.  First, in
      `dst1` and `used1`, files were matched with identical ones, and none is left that could be.  Then, if inexact
      renames are asked for and the `left` destinations are not too many, none is left while a considered source is
      similar enough and may be taken, and no candidate was passed over for a worse one. */
  ghost predicate Detected(r: Renames, left: nat, dst1: seq<Dst>, used1: seq<nat>)
    reads r
  {
    var minimumScore := if r.opts.renameScore == 0 then 30000 else r.opts.renameScore;
    && r.Valid() && |r.used| == |r.q|
    && Registered(r.q, r.opts, r.emptyBlob, r.dst, r.src, |r.q|)
    && Books(r.q, r.opts.copy, used1, dst1, r.src) && Renames.Keeps(dst1, r.dst) && left + Matched(dst1) == |r.dst|
    && (forall k :: 0 <= k < |dst1| && dst1[k].pair.Some? ==> r.IsSame(dst1[k]))
    && (forall k :: 0 <= k < |r.dst| ==> r.Settled(k))
    && if minimumScore == 60000 then r.dst == dst1
       else r.AllExhausted(left, minimumScore) && r.AllDeserved(left, minimumScore, dst1, used1)
  }

  /** Rename detection. */
  method DiffcoreRename(q: seq<Pair>, opts: Options, emptyBlob: Sha, hash: Sha -> nat,
                        similar: (FileSpec, FileSpec) -> nat)
    returns (r: Renames, out: seq<Out>, ghost left: nat, ghost dst1: seq<Dst>, ghost used1: seq<nat>)
    requires WfQueue(q)
    ensures fresh(r) && r.q == q && r.opts == opts && r.emptyBlob == emptyBlob && r.similar == similar
    ensures Detected(r, left, dst1, used1)
    ensures |r.used| == |q| && out == Final(q, r.used, r.dst, |q|)
  {
    hide Books, Final, Registered;
    var minimumScore := MinimumScore(opts);
    r := new Renames(q, opts, emptyBlob, hash, similar);
    r.Gather();
    ghost var dst0 := r.dst;
    left, dst1, used1 := r.MatchAll(minimumScore);
    KeepsRegistered(q, opts, emptyBlob, dst0, r.dst, r.src);
    MatchesAreExact(r, dst0, dst1);
    out := CollectQueue(r);
  }

  lemma MatchesAreExact(r: Renames, dst0: seq<Dst>, dst1: seq<Dst>)
    requires r.ExactOnly(dst0, dst1) && forall k :: 0 <= k < |dst0| ==> dst0[k].pair.None?
    ensures forall k :: 0 <= k < |dst1| && dst1[k].pair.Some? ==> r.IsSame(dst1[k])
  {
  }

  lemma KeepsRegistered(q: seq<Pair>, opts: Options, emptyBlob: Sha, dst: seq<Dst>, dst': seq<Dst>, src: seq<nat>)
    requires Registered(q, opts, emptyBlob, dst, src, |q|) && Renames.Keeps(dst, dst')
    ensures Registered(q, opts, emptyBlob, dst', src, |q|)
  {
    assert DstPaths(dst') == DstPaths(dst);
  }

  predicate Identical(one: FileSpec, two: FileSpec) {
    one.sha == two.sha && ((IsRegular(one) && IsRegular(two)) || one.mode == two.mode)
  }

  /** The creation at `i` and the file at `s` are of interest and identical. */
  predicate CouldRename(q: seq<Pair>, opts: Options, emptyBlob: Sha, i: nat, s: nat)
    requires i < |q| && s < |q|
  {
    AsDst(opts, emptyBlob, q[i]) && AsSrc(opts, emptyBlob, q[s]) && Identical(q[s].one, q[i].two)
  }

  /** A creation of interest put out unmatched: an identical file of interest has been renamed elsewhere. */
  lemma NoIdenticalLeft(r: Renames, i: nat, s: nat)
    requires r.Valid() && i < |r.q| && s < |r.q|
    requires Registered(r.q, r.opts, r.emptyBlob, r.dst, r.src, |r.q|) && forall k :: 0 <= k < |r.dst| ==> r.Settled(k)
    requires CouldRename(r.q, r.opts, r.emptyBlob, i, s) && |r.used| == |r.q|
    requires Kept(i) in Final(r.q, r.used, r.dst, |r.q|)
    ensures !r.opts.copy && CountFrom(Final(r.q, r.used, r.dst, |r.q|), s) == 1
  {
    hide Books, Final, Unmodified, IsRegular, Find;
    DroppedExactly(r.q, r.opts.copy, r.used, r.dst, r.src, i);
    UsesAreRenames(r.q, r.opts.copy, r.used, r.dst, r.src, s);
    LocatedIsFound(r.dst, r.q[i].two.path);
    var k := Find(r.dst, r.q[i].two.path).value;
    MatchHasImage(r.q, r.opts.copy, r.used, r.dst, r.src, i, k);
    SamePostIdentical(r.q[s].one, r.q[i].two, r.dst[k].two);
    assert r.Settled(k) && !r.Eligible(s, r.dst[k].two);
  }

  lemma SamePostIdentical(one: FileSpec, two: FileSpec, two': FileSpec)
    requires Identical(one, two) && SamePost(two', two)
    ensures one.sha == two'.sha && ((IsRegular(one) && IsRegular(two')) || one.mode == two'.mode)
  {
  }

  /** R for the last rename from a source that is gone, C otherwise. */
  ghost predicate LetterIs(copy: bool, q: seq<Pair>, src: seq<nat>, out: seq<Out>, k: nat, st: Status)
    requires k < |out| && out[k].Renamed?
  {
    && out[k].src < |q|
    && st == if SelfUse(copy, q, src, out[k].src) == 0 && CountFrom(out[k + 1..], out[k].src) == 0
             then StatusRenamed else StatusCopied
  }

  // ---------------------------------------------------------------- what the letters say

  /** The letter of a pair that is put out itself. */
  ghost predicate OwnLetter(p: Pair, st: Status) {
    var sameType := p.one.mode / 0x1000 % 0x10 == p.two.mode / 0x1000 % 0x10;
    var changed := p.one.sha != p.two.sha || p.one.mode != p.two.mode || p.one.dirty || p.two.dirty || p.one.sha == 0;
    if p.one.mode == 0 then st.StatusAdded?
    else if p.two.mode == 0 then st.StatusDeleted?
    else if !sameType then st.StatusTypeChanged?
    else if changed then st.StatusModified? else st.StatusUnknown?
  }

  lemma OwnLetterIs(q: seq<Pair>, used: seq<nat>, out: seq<Out>, k: nat, st: Status)
    requires Known(q, out) && |used| == |q| && k < |out| && out[k].Kept? && StatusIs(q, used, out, k, st)
    ensures OwnLetter(q[out[k].i], st)
  {
  }

  /** The entry at `k` says that the file is no longer there: deleted, or renamed. */
  ghost predicate GoneBy(q: seq<Pair>, out: seq<Out>, status: seq<Status>, k: nat, path: string)
    requires Known(q, out) && |status| == |out| && k < |out|
  {
    if out[k].Kept? then status[k] == StatusDeleted && q[out[k].i].one.path == path
    else status[k] == StatusRenamed && q[out[k].src].one.path == path
  }

  ghost predicate Gone(q: seq<Pair>, out: seq<Out>, status: seq<Status>, path: string)
    requires Known(q, out) && |status| == |out|
  {
    exists k :: 0 <= k < |out| && GoneBy(q, out, status, k, path)
  }

  ghost predicate Lettered(copy: bool, q: seq<Pair>, src: seq<nat>, out: seq<Out>, status: seq<Status>)
  {
    && RenamesPlain(q, out) && |status| == |out|
    && (forall k :: 0 <= k < |out| && out[k].Kept? ==> OwnLetter(q[out[k].i], status[k]))
    && (forall k :: 0 <= k < |out| && out[k].Renamed? ==> LetterIs(copy, q, src, out, k, status[k]))
  }

  lemma {:induction false} LastFrom(out: seq<Out>, s: nat) returns (k: nat)
    requires CountFrom(out, s) > 0
    ensures k < |out| && out[k].Renamed? && out[k].src == s && CountFrom(out[k + 1..], s) == 0
  {
    var init, last := out[..|out| - 1], out[|out| - 1];
    if last.Renamed? && last.src == s {
      k := |out| - 1;
      assert out[k + 1..] == [];
    } else {
      k := LastFrom(init, s);
      assert out[k + 1..] == init[k + 1..] + [last];
      CountAppend(init[k + 1..], [last], s);
      CountSingle([last], s);
    }
  }

  lemma SamePath(q: seq<Pair>, i: nat, j: nat)
    requires WfQueue(q) && i < |q| && j < |q| && q[i].one.path == q[j].one.path
    ensures i == j
  {
    assert q[i].two.path == q[j].two.path;
  }

  /** A source that does not stay has no new file. */
  lemma SourceGone(q: seq<Pair>, copy: bool, used: seq<nat>, dst: seq<Dst>, src: seq<nat>, i: nat, s: nat)
    requires WfQueue(q) && Books(q, copy, used, dst, src) && i < |q| == |used| && s < |q|
    requires OutOf(q, used, dst, i) != [] && OutOf(q, used, dst, i)[0].Renamed? && OutOf(q, used, dst, i)[0].src == s
    ensures s in src && Valid(q[s].one)
  {
    hide Find, Counted, Ascending, Unmodified, Type, IsCreated;
    var k := Find(dst, q[i].two.path).value;
    assert dst[k].pair == Some(s);
    var m :| 0 <= m < |src| && src[m] == s;
    assert IsSource(copy, q[src[m]]);
  }

  lemma {:induction false} RenamedFromSource(q: seq<Pair>, copy: bool, used: seq<nat>, dst: seq<Dst>, src: seq<nat>,
                                             n: nat, k: nat)
    requires WfQueue(q) && Books(q, copy, used, dst, src) && n <= |q| == |used|
    requires k < |Final(q, used, dst, n)| && Final(q, used, dst, n)[k].Renamed?
    ensures var s := Final(q, used, dst, n)[k].src;
      s in src && s < |q| && Valid(q[s].one)
  {
    hide OutOf, Books;
    var out := Final(q, used, dst, n);
    FinalPlain(q, copy, used, dst, src, n);
    OutPlain(q, copy, used, dst, src, n - 1);
    if k < |Final(q, used, dst, n - 1)| {
      RenamedFromSource(q, copy, used, dst, src, n - 1, k);
    } else {
      SourceKnown(q, out, k);
      SourceGone(q, copy, used, dst, src, n - 1, out[k].src);
    }
  }

  /** A letter says that a file is gone exactly of the files that are gone. */
  lemma GoneExactly(q: seq<Pair>, copy: bool, used: seq<nat>, dst: seq<Dst>, src: seq<nat>, status: seq<Status>, i: nat)
    requires WfQueue(q) && Books(q, copy, used, dst, src) && i < |q| == |used|
    requires Lettered(copy, q, src, Final(q, used, dst, |q|), status)
    ensures Gone(q, Final(q, used, dst, |q|), status, q[i].one.path) <==> q[i].one.mode != 0 && q[i].two.mode == 0
  {
    hide Books, Final, MatchOf, Moves, Unmodified, Ascending;
    var out, path := Final(q, used, dst, |q|), q[i].one.path;
    forall k | 0 <= k < |out| && GoneBy(q, out, status, k, path)
      ensures q[i].one.mode != 0 && q[i].two.mode == 0
    {
      if out[k].Kept? {
        SamePath(q, i, out[k].i);
      } else {
        RenamedFromSource(q, copy, used, dst, src, |q|, k);
        SamePath(q, i, out[k].src);
      }
    }
    if q[i].one.mode != 0 && q[i].two.mode == 0 {
      DroppedExactly(q, copy, used, dst, src, i);
      if Kept(i) in out {
        var k :| 0 <= k < |out| && out[k] == Kept(i);
        assert GoneBy(q, out, status, k, path);
      } else {
        assert !Unmodified(q[i]) by { NotUnmodified(q[i]); }
        var k := LastFrom(out, i);
        assert GoneBy(q, out, status, k, path);
      }
    }
  }

  /** Why the pair at `i` is not put out itself. */
  ghost predicate Replaced(q: seq<Pair>, out: seq<Out>, dst: seq<Dst>, i: nat)
    requires i < |q|
  {
    || SameFile(q[i])
    || (q[i].one.mode != 0 && q[i].two.mode == 0 && CountFrom(out, i) > 0)
    || (q[i].one.mode == 0 && q[i].two.mode != 0 && MatchOf(dst, q[i].two.path).Some?)
  }

  lemma NotUnmodified(p: Pair)
    requires p.one.mode != 0 && p.two.mode == 0
    ensures !Unmodified(p)
  {
  }

  /** Rename detection and the letters it leads to: the new files stay the same; only unmodified pairs and
      sources of renames disappear; no identical file is missed; without copies a source is used once; of the
      renames from one source the last is R if the source is gone, and all others are C; a pair put out itself has
      the letter of its own change; and the letters D and R together name exactly the files that are gone. */
  method DetectAndResolve(q: seq<Pair>, opts: Options, emptyBlob: Sha, hash: Sha -> nat,
                          similar: (FileSpec, FileSpec) -> nat)
    returns (r: Renames, out: seq<Out>, status: seq<Status>, ghost left: nat, ghost dst1: seq<Dst>,
             ghost used1: seq<nat>)
    requires WfQueue(q)
    ensures r.q == q && r.opts == opts && r.emptyBlob == emptyBlob && r.similar == similar
    ensures Detected(r, left, dst1, used1)
    ensures Placed(q, out) && Images(q, out) == Wanted(q, |q|)
    ensures forall i :: 0 <= i < |q| ==> (Kept(i) !in out <==> Replaced(q, out, r.dst, i))
    ensures !opts.copy ==> forall s :: 0 <= s < |q| ==> CountFrom(out, s) <= 1
    ensures forall i, s :: 0 <= i < |q| && 0 <= s < |q| && CouldRename(q, opts, emptyBlob, i, s) && Kept(i) in out ==>
      !opts.copy && CountFrom(out, s) == 1
    ensures Lettered(opts.copy, q, r.src, out, status)
    ensures forall i :: 0 <= i < |q| ==>
      (Gone(q, out, status, q[i].one.path) <==> q[i].one.mode != 0 && q[i].two.mode == 0)
  {
    hide Books, Final, StatusIs, RenamesPlain, Images, Wanted, MatchOf, Registered, CouldRename, Unmodified, Detected,
         SameFile, Lettered, Gone;
    r, out, left, dst1, used1 := DiffcoreRename(q, opts, emptyBlob, hash, similar);
    DetectedBooks(r, left, dst1, used1);
    PostImageKept(q, opts.copy, r.used, r.dst, r.src, |q|);
    FinalPlain(q, opts.copy, r.used, r.dst, r.src, |q|);
    PlainKnown(q, out);
    status := ResolveRenameCopy(q, r.used, out);
    forall i, s | 0 <= i < |q| && 0 <= s < |q| && CouldRename(q, opts, emptyBlob, i, s) && Kept(i) in out
      ensures !opts.copy && CountFrom(out, s) == 1
    {
      NoIdenticalLeft(r, i, s);
    }
    forall i | 0 <= i < |q|
      ensures Kept(i) !in out <==> Replaced(q, out, r.dst, i)
      ensures !opts.copy ==> CountFrom(out, i) <= 1
    {
      DroppedExactly(q, opts.copy, r.used, r.dst, r.src, i);
      SameFileIs(q[i]);
      UsesAreRenames(q, opts.copy, r.used, r.dst, r.src, i);
    }
    LettersMean(q, opts.copy, r.used, r.dst, r.src, status);
  }

  lemma LettersMean(q: seq<Pair>, copy: bool, used: seq<nat>, dst: seq<Dst>, src: seq<nat>, status: seq<Status>)
    requires WfQueue(q) && Books(q, copy, used, dst, src) && |used| == |q|
    requires var out := Final(q, used, dst, |q|);
      RenamesPlain(q, out) && |status| == |out| && forall k :: 0 <= k < |out| ==> StatusIs(q, used, out, k, status[k])
    ensures Lettered(copy, q, src, Final(q, used, dst, |q|), status)
    ensures forall i :: 0 <= i < |q| ==>
      (Gone(q, Final(q, used, dst, |q|), status, q[i].one.path) <==> q[i].one.mode != 0 && q[i].two.mode == 0)
  {
    hide Books, Final, StatusIs, RenamesPlain, SelfUse, OwnLetter, Gone;
    var out := Final(q, used, dst, |q|);
    PlainKnown(q, out);
    forall k | 0 <= k < |out| && out[k].Kept?
      ensures OwnLetter(q[out[k].i], status[k])
    {
      OwnLetterIs(q, used, out, k, status[k]);
    }
    forall k | 0 <= k < |out| && out[k].Renamed?
      ensures LetterIs(copy, q, src, out, k, status[k])
    {
      SourceKnown(q, out, k);
      UsesAreRenames(q, copy, used, dst, src, out[k].src);
      LastIsRename(q, used, out, k, status[k], SelfUse(copy, q, src, out[k].src));
    }
    forall i | 0 <= i < |q|
      ensures Gone(q, out, status, q[i].one.path) <==> q[i].one.mode != 0 && q[i].two.mode == 0
    {
      GoneExactly(q, copy, used, dst, src, status, i);
    }
  }

  lemma DetectedBooks(r: Renames, left: nat, dst1: seq<Dst>, used1: seq<nat>)
    requires Detected(r, left, dst1, used1)
    ensures r.Valid() && |r.used| == |r.q|
    ensures Registered(r.q, r.opts, r.emptyBlob, r.dst, r.src, |r.q|)
    ensures forall k :: 0 <= k < |r.dst| ==> r.Settled(k)
  {
  }

  lemma PlainKnown(q: seq<Pair>, out: seq<Out>)
    requires RenamesPlain(q, out)
    ensures Known(q, out)
  {
  }

  lemma SourceKnown(q: seq<Pair>, out: seq<Out>, k: nat)
    requires RenamesPlain(q, out) && k < |out| && out[k].Renamed?
    ensures out[k].src < |q|
  {
  }
}
