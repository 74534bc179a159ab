/** Bringing a cache tree up to date with the index (cache-tree.c:72-103, 205-220, 240-370, 372-385). */
module CacheTreeUpdate {
  import opened Common
  import opened CacheTreeSpec
  import opened CacheTreeNodes
  import opened CacheTreeGroups

  /** WRITE_TREE_MISSING_OK and WRITE_TREE_DRY_RUN. */
  datatype Flags = Flags(missingOk: bool, dryRun: bool)

  // ---------------------------------------------------------------- failing

  /** Submodules are never looked for. */
  predicate LineMissing(line: Line, objects: set<Sha>) {
    line.mode != 0xE000 && line.sha !in objects
  }

  /** Every object the directory's own tree object names can be read. */
  ghost predicate AllPresent(h: seq<Line> -> Sha, idx: seq<Entry>, base: string, objects: set<Sha>)
    requires WfNames(idx)
  {
    forall l :: l in Lines(h, Below(idx, base), base) ==> !LineMissing(l, objects)
  }

  lemma StaysPresent(h: seq<Line> -> Sha, idx: seq<Entry>, base: string, objects: set<Sha>, objects': set<Sha>)
    requires WfNames(idx) && AllPresent(h, idx, base, objects) && objects <= objects'
    ensures AllPresent(h, idx, base, objects')
  {
    hide Lines, Below;
  }

  /** Objects may not be missing and one is: that of a file below `base`, or in a dry run, where nothing gets
      written, that of a subdirectory. */
  ghost predicate Missing(h: seq<Line> -> Sha, idx: seq<Entry>, base: string, flags: Flags, objects: set<Sha>)
    requires WfNames(idx)
  {
    !flags.missingOk && (MissingFile(idx, base, objects) || (flags.dryRun && MissingTree(h, idx, base, objects)))
  }

  ghost predicate MissingFile(idx: seq<Entry>, base: string, objects: set<Sha>) {
    exists e :: e in idx && Under(e, base) && e.mode != 0xE000 && e.sha !in objects
  }

  ghost predicate MissingTree(h: seq<Line> -> Sha, idx: seq<Entry>, base: string, objects: set<Sha>)
    requires WfNames(idx)
  {
    exists dir :: base < dir && Below(idx, dir) != [] && TreeHash(h, idx, dir) !in objects
  }

  /** Failures are counted, and there is none without a missing object or a failed write. */
  ghost predicate Counted(ok: bool, h: seq<Line> -> Sha, idx: seq<Entry>, base: string, flags: Flags, objects: set<Sha>,
                          before: nat, after: nat)
    requires WfNames(idx)
  {
    if ok then after == before
    else (Missing(h, idx, base, flags, objects) && after == before) || (!flags.dryRun && after == before + 1)
  }

  /** What is missing below a subdirectory is missing. */
  lemma MissingBelow(h: seq<Line> -> Sha, idx: seq<Entry>, base: string, name: string, flags: Flags, objects: set<Sha>)
    requires WfNames(idx) && Missing(h, idx, SubBase(base, name), flags, objects)
    ensures Missing(h, idx, base, flags, objects)
  {
    hide Below, TreeHash;
    var sub := SubBase(base, name);
    assert base < sub;
    if MissingFile(idx, sub, objects) {
      var e :| e in idx && Under(e, sub) && e.mode != S_IFGITLINK && e.sha !in objects;
      PrefixTrans(base, sub, e.name);
    } else {
      var dir :| sub < dir && Below(idx, dir) != [] && TreeHash(h, idx, dir) !in objects;
      PrefixTrans(base, sub, dir);
    }
  }

  lemma CountedBelow(ok: bool, h: seq<Line> -> Sha, idx: seq<Entry>, base: string, name: string, flags: Flags,
                     objects: set<Sha>, before: nat, after: nat)
    requires WfNames(idx) && Counted(ok, h, idx, SubBase(base, name), flags, objects, before, after)
    ensures Counted(ok, h, idx, base, flags, objects, before, after)
  {
    hide Missing;
    if Missing(h, idx, SubBase(base, name), flags, objects) { MissingBelow(h, idx, base, name, flags, objects); }
  }

  /** The line of the entry or run at `i` shows what is missing. */
  lemma EntryMissing(h: seq<Line> -> Sha, entries: seq<Entry>, i: nat, idx: seq<Entry>, base: string, flags: Flags,
                     objects: set<Sha>, line: Line)
    requires WfNames(idx) && Holds(entries, idx, base) && i < Lead(entries, base)
    requires !flags.missingOk && LineMissing(line, objects)
    requires
      var e := entries[i];
      if DirIn(e, base) then
        var sub := SubBase(base, Comp(e, base));
        flags.dryRun && line.sha == TreeHash(h, idx, sub) && Below(idx, sub) != []
      else line.mode == e.mode && line.sha == e.sha
    ensures Missing(h, idx, base, flags, objects)
  {
    hide TreeHash, Sorted, IsDir, Comp, Below;
    var e := entries[i];
    if DirIn(e, base) {
      assert base < SubBase(base, Comp(e, base));
    } else {
      assert e == entries[..Lead(entries, base)][i] == Below(idx, base)[i];
      BelowIn(idx, base, e);
    }
  }

  lemma {:induction false} BelowIn(idx: seq<Entry>, base: string, e: Entry)
    requires WfNames(idx) && e in Below(idx, base)
    ensures e in idx && Under(e, base)
  {
    if idx != [] && !(e == idx[0] && Under(e, base)) { BelowIn(idx[1..], base, e); }
  }

  // ---------------------------------------------------------------- subtree lists

  ghost predicate SubsValid(h: seq<Line> -> Sha, down: seq<Sub>, idx: seq<Entry>, base: string)
    requires WfNames(idx)
  {
    SortedDown(down) && forall k :: 0 <= k < |down| ==> ValidSub(h, down[k], idx, base)
  }

  /** The subtree is in use and its node is valid. */
  predicate Ready(sub: Sub) {
    sub.used && sub.tree.Some? && sub.tree.value.entryCount >= 0
  }

  ghost predicate HasReady(down: seq<Sub>, name: string) {
    exists k :: 0 <= k < |down| && down[k].name == name && Ready(down[k])
  }

  /** Every subdirectory among the first `i` entries has its subtree ready. */
  ghost predicate AllReady(down: seq<Sub>, entries: seq<Entry>, i: nat, base: string) {
    forall k :: 0 <= k < i && k < |entries| && DirIn(entries[k], base) ==> HasReady(down, Comp(entries[k], base))
  }

  /** Subtrees in use belong to a subdirectory among the first `i` entries. */
  ghost predicate UsedAreDirs(down: seq<Sub>, entries: seq<Entry>, i: nat, base: string) {
    forall j :: 0 <= j < |down| && down[j].used ==> IsDirName(entries, i, base, down[j].name)
  }

  ghost predicate IsDirName(entries: seq<Entry>, i: nat, base: string, name: string) {
    exists k :: 0 <= k < i && k < |entries| && DirIn(entries[k], base) && Comp(entries[k], base) == name
  }

  /** `down` holds `name` at `pos`: it was there, or it has been put between the others. */
  ghost predicate Grown(down0: seq<Sub>, down: seq<Sub>, pos: nat, name: string) {
    pos < |down| && pos <= |down0| && down[pos].name == name
    && (down == down0 || down == down0[..pos] + [Sub(name, false, None)] + down0[pos..])
  }

  /** Finding or creating a subtree loses nothing. */
  lemma GrowKeeps(h: seq<Line> -> Sha, down0: seq<Sub>, down: seq<Sub>, pos: nat, name: string, entries: seq<Entry>,
                  i: nat, idx: seq<Entry>, base: string)
    requires WfNames(idx) && Grown(down0, down, pos, name) && SortedDown(down) && '/' !in name
    requires SubsValid(h, down0, idx, base) && AllReady(down0, entries, i, base) && UsedAreDirs(down0, entries, i, base)
    ensures SubsValid(h, down, idx, base) && AllReady(down, entries, i, base) && UsedAreDirs(down, entries, i, base)
  {
    hide ValidFor, SortedDown, IsDirName, DirIn, Comp, Under, IsDir;
    if down != down0 {
      assert forall k :: 0 <= k < |down| ==>
        down[k] == if k < pos then down0[k] else if k == pos then Sub(name, false, None) else down0[k - 1];
      assert forall k :: 0 <= k < |down0| ==> down0[k] == down[if k < pos then k else k + 1];
      forall n: string | HasReady(down0, n)
        ensures HasReady(down, n)
      {
        var k :| 0 <= k < |down0| && down0[k].name == n && Ready(down0[k]);
        assert Ready(down[if k < pos then k else k + 1]);
      }
    }
  }

  /** Storing an updated subtree: valid again whether or not the update succeeded. */
  lemma StoreKeeps(h: seq<Line> -> Sha, down: seq<Sub>, pos: nat, used: bool, t: Node, idx: seq<Entry>, base: string)
    requires WfNames(idx) && SubsValid(h, down, idx, base) && pos < |down|
    requires ValidFor(h, t, idx, SubBase(base, down[pos].name))
    ensures SubsValid(h, down[pos := Sub(down[pos].name, used, Some(t))], idx, base)
  {
    hide ValidFor, SubtreeNameCmp;
    assert ValidSub(h, down[pos], idx, base);
  }

  /** Subtrees in use have a node whose object is written. */
  predicate UsedStored(down: seq<Sub>, objects: set<Sha>) {
    forall k :: 0 <= k < |down| && down[k].used ==> down[k].tree.Some? && down[k].tree.value.sha in objects
  }

  lemma NoneUsedStored(down: seq<Sub>, objects: set<Sha>)
    requires forall k :: 0 <= k < |down| ==> !down[k].used
    ensures UsedStored(down, objects)
  {
  }

  lemma GrowKeepsStored(down0: seq<Sub>, down: seq<Sub>, pos: nat, name: string)
    requires Grown(down0, down, pos, name)
    ensures forall objects :: UsedStored(down0, objects) ==> UsedStored(down, objects)
  {
  }

  lemma StoredStays(down: seq<Sub>, pos: nat, name: string, t: Node, objects: set<Sha>, objects': set<Sha>)
    requires UsedStored(down, objects) && objects <= objects' && pos < |down| && t.sha in objects'
    ensures UsedStored(down[pos := Sub(name, true, Some(t))], objects')
  {
  }

  lemma DiscardKeepsStored(h: seq<Line> -> Sha, down: seq<Sub>, idx: seq<Entry>, base: string, objects: set<Sha>)
    requires WfNames(idx) && SubsValid(h, down, idx, base)
    ensures UsedStored(down, objects) ==> UsedStored(UsedOnly(down), objects)
  {
    hide SubtreeNameCmp, UsedOnly, ValidSub;
    UsedOnlyIsExact(down);
  }

  /** A finished run of a subdirectory. */
  lemma RunDone(down: seq<Sub>, pos: nat, t: Node, entries: seq<Entry>, i: nat, n: nat, base: string, name: string)
    requires IsRun(entries, i, n, base, name) && pos < |down| && down[pos].name == name && t.entryCount >= 0
    requires AllReady(down, entries, i, base) && UsedAreDirs(down, entries, i, base)
    ensures AllReady(down[pos := Sub(name, true, Some(t))], entries, i + n, base)
    ensures UsedAreDirs(down[pos := Sub(name, true, Some(t))], entries, i + n, base)
  {
    hide Comp, Under, IsDir, SubBase;
    var down' := down[pos := Sub(name, true, Some(t))];
    assert Ready(down'[pos]);
    forall k | 0 <= k < i + n && DirIn(entries[k], base)
      ensures HasReady(down', Comp(entries[k], base))
    {
      if k < i {
        assert HasReady(down, Comp(entries[k], base));
        var j :| 0 <= j < |down| && down[j].name == Comp(entries[k], base) && Ready(down[j]);
        assert Ready(down'[j]);
      }
    }
    forall j | 0 <= j < |down'| && down'[j].used
      ensures IsDirName(entries, i + n, base, down'[j].name)
    {
      if j == pos {
        assert DirIn(entries[i], base);
      } else {
        assert IsDirName(entries, i, base, down[j].name);
      }
    }
  }

  lemma FilePassesReady(down: seq<Sub>, entries: seq<Entry>, i: nat, base: string)
    requires i < |entries| && !DirIn(entries[i], base)
    requires AllReady(down, entries, i, base) && UsedAreDirs(down, entries, i, base)
    ensures AllReady(down, entries, i + 1, base) && UsedAreDirs(down, entries, i + 1, base)
  {
    hide Comp, Under, IsDir, HasReady;
    forall j | 0 <= j < |down| && down[j].used
      ensures IsDirName(entries, i + 1, base, down[j].name)
    {
      assert IsDirName(entries, i, base, down[j].name);
    }
  }

  // ---------------------------------------------------------------- discarding what is not used

  function UsedOnly(down: seq<Sub>): seq<Sub> {
    if down == [] then []
    else UsedOnly(down[..|down| - 1]) + (if down[|down| - 1].used then [down[|down| - 1]] else [])
  }

  /** Discarding keeps exactly the used subtrees, still sorted. */
  lemma {:induction false} UsedOnlyIsExact(down: seq<Sub>)
    requires SortedDown(down)
    ensures SortedDown(UsedOnly(down))
    ensures forall s :: s in UsedOnly(down) <==> s in down && s.used
  {
    hide SubtreeNameCmp;
    if down != [] {
      var rest := down[..|down| - 1];
      UsedOnlyIsExact(rest);
      var r := UsedOnly(rest);
      var last := down[|down| - 1];
      assert down == rest + [last];
      forall j | 0 <= j < |r|
        ensures SubtreeNameCmp(r[j].name, last.name) < 0
      {
        assert r[j] in rest;
      }
    }
  }

  // ---------------------------------------------------------------- one directory

  lemma LevelStarts(entries: seq<Entry>, idx: seq<Entry>, base: string)
    requires WfNames(idx) && Holds(entries, idx, base)
    ensures Boundary(entries, 0, base) && WfNames(entries)
  {
  }

  /** A subtree list brought up to date: sound, and with a ready subtree for exactly the subdirectories. */
  ghost predicate Current(h: seq<Line> -> Sha, down: seq<Sub>, entries: seq<Entry>, idx: seq<Entry>, base: string)
    requires WfNames(idx)
  {
    && SubsValid(h, down, idx, base)
    && AllReady(down, entries, Lead(entries, base), base)
    && UsedAreDirs(down, entries, Lead(entries, base), base)
  }

  /** There is a ready subtree for each subdirectory, and no other. */
  ghost predicate OnePerDir(down: seq<Sub>, entries: seq<Entry>, base: string) {
    && AllReady(down, entries, Lead(entries, base), base)
    && forall j :: 0 <= j < |down| ==> IsDirName(entries, Lead(entries, base), base, down[j].name)
  }

  /** Discarding from a current list leaves one subtree for each subdirectory and no other. */
  lemma DiscardKeepsCurrent(h: seq<Line> -> Sha, down: seq<Sub>, entries: seq<Entry>, idx: seq<Entry>, base: string)
    requires WfNames(idx) && Current(h, down, entries, idx, base)
    ensures Current(h, UsedOnly(down), entries, idx, base)
    ensures OnePerDir(UsedOnly(down), entries, base)
  {
    hide SubtreeNameCmp, ValidSub, UsedOnly, IsDirName, Comp, Lead, Under, IsDir;
    UsedOnlyIsExact(down);
    var r := UsedOnly(down);
    forall n: string | HasReady(down, n)
      ensures HasReady(r, n)
    {
      var k :| 0 <= k < |down| && down[k].name == n && Ready(down[k]);
      assert down[k] in r;
    }
    forall j | 0 <= j < |r|
      ensures ValidSub(h, r[j], idx, base) && IsDirName(entries, Lead(entries, base), base, r[j].name)
    {
      assert r[j] in down;
    }
  }

  lemma UnmarkKeeps(h: seq<Line> -> Sha, down0: seq<Sub>, down: seq<Sub>, entries: seq<Entry>, idx: seq<Entry>,
                    base: string)
    requires WfNames(idx) && SubsValid(h, down0, idx, base) && |down| == |down0|
    requires forall k :: 0 <= k < |down| ==> down[k] == down0[k].(used := false)
    ensures SubsValid(h, down, idx, base) && AllReady(down, entries, 0, base) && UsedAreDirs(down, entries, 0, base)
  {
    hide SubtreeNameCmp, ValidFor;
    forall k | 0 <= k < |down|
      ensures ValidSub(h, down[k], idx, base)
    {
      assert ValidSub(h, down0[k], idx, base);
    }
  }

  /** A subtree without a node starts from an empty one. */
  lemma StartsValid(h: seq<Line> -> Sha, sub: Sub, idx: seq<Entry>, base: string)
    requires WfNames(idx) && ValidSub(h, sub, idx, base)
    ensures ValidFor(h, if sub.tree.Some? then sub.tree.value else EMPTY, idx, SubBase(base, sub.name))
  {
    EmptyIsValid(h, idx, SubBase(base, sub.name));
  }

  // ---------------------------------------------------------------- writing the tree object

  /** A ready subtree is found, and tells how many entries to skip and what line to write. */
  lemma FoundReady(h: seq<Line> -> Sha, down: seq<Sub>, name: string, pos: int, idx: seq<Entry>, base: string)
    requires WfNames(idx) && SubsValid(h, down, idx, base) && HasReady(down, name) && pos < |down|
    requires if pos >= 0 then down[pos].name == name else Gap(down, name, -pos - 1)
    ensures 0 <= pos && Ready(down[pos])
    ensures down[pos].tree.value.entryCount == |Below(idx, SubBase(base, name))|
    ensures down[pos].tree.value.sha == TreeHash(h, idx, SubBase(base, name))
  {
    hide Below, SubtreeNameCmp, TreeHash, SubBase;
    if pos < 0 { GapMeansAbsent(down, name, -pos - 1); }
    var k :| 0 <= k < |down| && down[k].name == name && Ready(down[k]);
    OnePlace(down, pos, k);
    assert ValidSub(h, down[pos], idx, base);
  }

  /** The tree object's lines from position `i` on start with `line`, which stands for `count` entries. */
  ghost predicate SplitsOff(h: seq<Line> -> Sha, entries: seq<Entry>, i: nat, count: nat, base: string, line: Line) {
    WfNames(entries) && i + count <= Lead(entries, base)
    && LevelLines(h, entries, i, base) == [line] + LevelLines(h, entries, i + count, base)
  }


  /** What a node's validity says about its list and about itself. */
  lemma ValidParts(h: seq<Line> -> Sha, it: Node, idx: seq<Entry>, base: string)
    requires WfNames(idx) && ValidFor(h, it, idx, base)
    ensures SubsValid(h, it.down, idx, base)
    ensures it.entryCount >= 0 ==> it.entryCount == |Below(idx, base)| && it.sha == TreeHash(h, idx, base)
  {
  }

  lemma ValidAgain(h: seq<Line> -> Sha, it: Node, idx: seq<Entry>, base: string)
    requires WfNames(idx) && SubsValid(h, it.down, idx, base)
    requires it.entryCount >= 0 ==> it.entryCount == |Below(idx, base)| && it.sha == TreeHash(h, idx, base)
    ensures ValidFor(h, it, idx, base)
  {
  }

  lemma CurrentSubs(h: seq<Line> -> Sha, down: seq<Sub>, entries: seq<Entry>, idx: seq<Entry>, base: string)
    requires WfNames(idx) && Current(h, down, entries, idx, base)
    ensures SubsValid(h, down, idx, base)
  {
  }
}
