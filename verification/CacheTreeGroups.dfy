/** How one directory level of a sorted index splits into files and runs of subdirectory entries
    (cache-tree.c:266-301 and 309-349 both walk it). */
module CacheTreeGroups {
  import opened CacheTreeSpec

  predicate DirIn(e: Entry, base: string) {
    Under(e, base) && IsDir(e, base)
  }

  /** No subdirectory of `base` has entries both before and after position `i`. */
  ghost predicate Boundary(entries: seq<Entry>, i: nat, base: string) {
    forall k, j :: 0 <= k < i && i <= j < |entries| && DirIn(entries[k], base) ==>
      !Under(entries[j], SubBase(base, Comp(entries[k], base)))
  }

  /** The leading entries below `base` are all the index has there. */
  ghost predicate Holds(entries: seq<Entry>, idx: seq<Entry>, base: string)
    requires WfNames(idx)
  {
    WfNames(entries) && Sorted(entries) && entries[..Lead(entries, base)] == Below(idx, base)
  }

  lemma LeadIsFirst(list: seq<Entry>, base: string, n: nat)
    requires n <= |list| && (forall k :: 0 <= k < n ==> Under(list[k], base)) && (n < |list| ==> !Under(list[n], base))
    ensures Lead(list, base) == n
  {
    hide Lead, Under;
  }

  lemma FilePasses(entries: seq<Entry>, i: nat, base: string)
    requires i < |entries| && !DirIn(entries[i], base) && Boundary(entries, i, base)
    ensures Boundary(entries, i + 1, base)
  {
    hide Under, IsDir, Comp, SubBase;
  }

  lemma InRun(e: Entry, base: string, name: string)
    requires Under(e, SubBase(base, name)) && '/' !in name
    ensures DirIn(e, base) && Comp(e, base) == name
  {
    hide Comp, SubBase, Under, IsDir;
    UnderFixesComp(e, base, name);
  }

  /** Before a boundary nothing lies in the directory of the entry at it. */
  lemma NoneBefore(entries: seq<Entry>, i: nat, base: string, k: nat)
    requires WfNames(entries) && k < i < |entries| && DirIn(entries[i], base) && Boundary(entries, i, base)
    ensures !Under(entries[k], SubBase(base, Comp(entries[i], base)))
  {
    hide Under, IsDir, Comp, SubBase;
    var name := Comp(entries[i], base);
    var sub := SubBase(base, name);
    DirIsUnder(entries[i], base);
    if Under(entries[k], sub) {
      CompHasNoSlash(entries[i], base);
      InRun(entries[k], base, name);
      assert false;
    }
  }

  /** The run of a subdirectory: `n` entries from a boundary to the next. */
  ghost predicate IsRun(entries: seq<Entry>, i: nat, n: nat, base: string, name: string) {
    && 1 <= n && i + n <= |entries|
    && (forall k :: i <= k < i + n ==>
          Under(entries[k], SubBase(base, name)) && DirIn(entries[k], base) && Comp(entries[k], base) == name)
    && (forall k :: 0 <= k < i || i + n <= k < |entries| ==> !Under(entries[k], SubBase(base, name)))
  }

  lemma RunAt(entries: seq<Entry>, i: nat, base: string)
    requires WfNames(entries) && Sorted(entries) && i < |entries| && DirIn(entries[i], base)
    requires Boundary(entries, i, base)
    ensures IsRun(entries, i, Lead(entries[i..], SubBase(base, Comp(entries[i], base))), base, Comp(entries[i], base))
  {
    hide Under, IsDir, Comp, SubBase, Lead, Boundary, Sorted;
    var name := Comp(entries[i], base);
    var sub := SubBase(base, name);
    var n := Lead(entries[i..], sub);
    CanDescend(entries, i, base);
    assert Under(entries[i..][0], sub);
    assert forall k :: i <= k < i + n ==> entries[k] == entries[i..][k - i];
    forall k | i <= k < i + n
      ensures Under(entries[k], sub) && DirIn(entries[k], base) && Comp(entries[k], base) == name
    {
      InRun(entries[k], base, name);
    }
    forall k | 0 <= k < i
      ensures !Under(entries[k], sub)
    {
      NoneBefore(entries, i, base, k);
    }
    if i + n < |entries| {
      assert !Under(entries[i..][n], sub);
      forall k | i + n <= k < |entries|
        ensures !Under(entries[k], sub)
      {
        if Under(entries[k], sub) && k > i + n { Grouped(entries, i, i + n, k, sub); }
      }
    }
  }

  lemma CanDescend(entries: seq<Entry>, i: nat, base: string)
    requires WfNames(entries) && i < |entries| && DirIn(entries[i], base)
    ensures Under(entries[i], base) && '/' !in Comp(entries[i], base)
    ensures Under(entries[i], SubBase(base, Comp(entries[i], base)))
  {
    hide Comp, SubBase, Under, IsDir;
    DirIsUnder(entries[i], base);
    CompHasNoSlash(entries[i], base);
  }

  lemma RunEndsAtBoundary(entries: seq<Entry>, i: nat, n: nat, base: string, name: string)
    requires IsRun(entries, i, n, base, name) && Boundary(entries, i, base)
    ensures Boundary(entries, i + n, base)
  {
    hide Under, IsDir, Comp, SubBase;
  }

  /** A run stays within the level, and is everything the index has below the subdirectory. */
  lemma RunIsBelow(entries: seq<Entry>, idx: seq<Entry>, i: nat, n: nat, base: string, name: string)
    requires WfNames(idx) && Holds(entries, idx, base) && IsRun(entries, i, n, base, name) && i < Lead(entries, base)
    ensures i + n <= Lead(entries, base)
    ensures Lead(entries[i..], SubBase(base, name)) == n
    ensures entries[i..i + n] == Below(idx, SubBase(base, name))
  {
    hide Under, IsDir, Comp, SubBase, Lead, Below, Sorted, Lines, Boundary;
    var m := Lead(entries, base);
    var sub := SubBase(base, name);
    assert forall k :: i <= k < i + n ==> Under(entries[k], base);
    var a, b, c := entries[..i], entries[i..i + n], entries[i + n..m];
    assert entries[..m] == a + b + c;
    BelowNone(a, sub);
    BelowAll(b, sub);
    BelowNone(c, sub);
    BelowConcat(a, b, sub);
    BelowConcat(a + b, c, sub);
    BaseOfSub(base, name);
    BelowBelow(idx, base, sub);
    LeadIsFirst(entries[i..], sub, n);
  }

  lemma BaseOfSub(base: string, name: string)
    ensures base <= SubBase(base, name)
  {
  }

  /** So the rest of the index can be handed to the subdirectory. */
  lemma HandDown(entries: seq<Entry>, idx: seq<Entry>, i: nat, n: nat, base: string, name: string)
    requires WfNames(idx) && Holds(entries, idx, base) && IsRun(entries, i, n, base, name) && i < Lead(entries, base)
    ensures Holds(entries[i..], idx, SubBase(base, name))
  {
    hide Under, IsDir, Comp, SubBase, Lead, Below, IsRun, Boundary, Before;
    RunIsBelow(entries, idx, i, n, base, name);
    assert entries[i..][..n] == entries[i..i + n];
  }

  /** All about the run at a boundary. */
  lemma RunFrom(entries: seq<Entry>, idx: seq<Entry>, i: nat, base: string) returns (n: nat)
    requires WfNames(idx) && Holds(entries, idx, base) && i < Lead(entries, base)
    requires DirIn(entries[i], base) && Boundary(entries, i, base)
    ensures var name := Comp(entries[i], base);
      && n >= 1 && i + n <= Lead(entries, base) && IsRun(entries, i, n, base, name) && Boundary(entries, i + n, base)
      && n == |Below(idx, SubBase(base, name))| && Holds(entries[i..], idx, SubBase(base, name))
      && '/' !in name && |base| < |SubBase(base, name)| < |entries[i].name|
  {
    hide Lines, Below, Under, Sorted, IsDir, Comp, Lead, Boundary, Before;
    var name := Comp(entries[i], base);
    n := Lead(entries[i..], SubBase(base, name));
    CanDescend(entries, i, base);
    RunAt(entries, i, base);
    RunIsBelow(entries, idx, i, n, base, name);
    RunEndsAtBoundary(entries, i, n, base, name);
    HandDown(entries, idx, i, n, base, name);
    LevelDeepens(entries[i], base, name);
  }

  lemma LevelDeepens(e: Entry, base: string, name: string)
    requires Under(e, SubBase(base, name))
    ensures |base| < |SubBase(base, name)| < |e.name|
  {
  }

  // ---------------------------------------------------------------- the tree object, from a position on

  lemma LevelUnder(entries: seq<Entry>, i: nat, base: string)
    requires WfNames(entries) && i <= Lead(entries, base)
    ensures WfNames(entries[i..Lead(entries, base)]) && AllUnder(entries[i..Lead(entries, base)], base)
  {
    hide Under, Lead;
  }

  /** The tree object's lines for the level's entries from `i` on. */
  ghost function LevelLines(h: seq<Line> -> Sha, entries: seq<Entry>, i: nat, base: string): seq<Line>
    requires WfNames(entries) && i <= Lead(entries, base)
  {
    LevelUnder(entries, i, base);
    Lines(h, entries[i..Lead(entries, base)], base)
  }

  lemma LevelDone(h: seq<Line> -> Sha, entries: seq<Entry>, base: string)
    requires WfNames(entries)
    ensures LevelLines(h, entries, Lead(entries, base), base) == []
  {
    hide Under, Lead, Comp, IsDir;
  }

  lemma LevelWhole(h: seq<Line> -> Sha, entries: seq<Entry>, idx: seq<Entry>, base: string)
    requires WfNames(idx) && Holds(entries, idx, base)
    ensures LevelLines(h, entries, 0, base) == Lines(h, Below(idx, base), base)
  {
    hide Under, Lead, Comp, IsDir, Lines, Sorted, Below;
    assert entries[0..Lead(entries, base)] == entries[..Lead(entries, base)];
  }

  /** The line of a run. */
  lemma RunLine(h: seq<Line> -> Sha, entries: seq<Entry>, idx: seq<Entry>, i: nat, n: nat, base: string, name: string)
    requires WfNames(idx) && Holds(entries, idx, base) && IsRun(entries, i, n, base, name) && i < Lead(entries, base)
    ensures i + n <= Lead(entries, base)
    ensures LevelLines(h, entries, i, base)
         == [Line(S_IFDIR, name, TreeHash(h, idx, SubBase(base, name)))] + LevelLines(h, entries, i + n, base)
  {
    hide Under, SubBase, Below, Sorted, Lead, Boundary, FirstSlash, Comp, IsDir, WfNames;
    var m := Lead(entries, base);
    var sub := SubBase(base, name);
    RunIsBelow(entries, idx, i, n, base, name);
    LevelUnder(entries, i, base);
    LevelUnder(entries, i + n, base);
    var list := entries[i..m];
    assert list[0] == entries[i] && DirIn(list[0], base);
    assert forall k :: 0 <= k < |list| ==> list[k] == entries[i + k];
    LeadIsFirst(list, sub, n);
    assert list[..n] == entries[i..i + n] && list[n..] == entries[i + n..m];
  }

  lemma FileLine(h: seq<Line> -> Sha, entries: seq<Entry>, i: nat, base: string)
    requires WfNames(entries) && i < Lead(entries, base) && !IsDir(entries[i], base)
    ensures LevelLines(h, entries, i, base)
         == [Line(entries[i].mode, Comp(entries[i], base), entries[i].sha)] + LevelLines(h, entries, i + 1, base)
  {
    hide Under, SubBase, Lead, FirstSlash, Comp, IsDir;
    var m := Lead(entries, base);
    assert entries[i..m][0] == entries[i];
    assert entries[i..m][1..] == entries[i + 1..m];
  }
}
