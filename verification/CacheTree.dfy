/** Cache-tree nodes in memory, each owning its subtrees: searching, invalidating and updating them in place
    (cache-tree.c:32-150, 205-220, 240-385). */
module CacheTree {
  import opened Common
  import opened CacheTreeSpec
  import opened CacheTreeNodes
  import opened CacheTreeGroups
  import opened CacheTreeUpdate

  /** The objects that can be read back, and how many writes have failed so far. */
  class ObjectStore {
    var objects: set<Sha>
    ghost var failures: nat

    /** Writing a tree object; it can fail unless the object is there already. */
    method WriteTree(h: seq<Line> -> Sha, lines: seq<Line>) returns (ok: bool)
      modifies this
      ensures objects == old(objects) + if ok then {h(lines)} else {}
      ensures failures == old(failures) + if ok then 0 else 1
    {
      ok := true;
      if h(lines) !in objects {
        ok := *;
        if ok {
          objects := objects + {h(lines)};
        } else {
          failures := failures + 1;
        }
      }
    }
  }

  /** An entry of a node's subtree list. */
  datatype SubTree = SubTree(name: string, used: bool, tree: Tree?)

  class Tree {
    var entryCount: int
    var sha: Sha
    var down: seq<SubTree>
    ghost var Repr: set<object>

    constructor ()
      ensures Valid() && fresh(Repr) && Value() == EMPTY
    {
      entryCount, sha, down := -1, NULL_SHA, [];
      Repr := {this};
    }

    ghost predicate Valid()
      reads this, Repr
      ensures Valid() ==> this in Repr
      decreases Repr
    {
      && this in Repr
      && (forall k :: 0 <= k < |down| && down[k].tree != null ==>
            down[k].tree in Repr && down[k].tree.Repr <= Repr && this !in down[k].tree.Repr && down[k].tree.Valid())
      && (forall j, k :: 0 <= j < k < |down| && down[j].tree != null && down[k].tree != null ==>
            down[j].tree.Repr !! down[k].tree.Repr)
    }

    /** The tree of values this node stands for. */
    ghost function Value(): Node
      reads this, Repr
      requires Valid()
      decreases Repr, 2
    {
      Node(entryCount, sha, Subs(|down|))
    }

    ghost function SubAt(k: nat): Sub
      reads this, Repr
      requires Valid() && k < |down|
      decreases Repr, 0
    {
      Sub(down[k].name, down[k].used, if down[k].tree == null then None else Some(down[k].tree.Value()))
    }

    ghost function Subs(n: nat): (r: seq<Sub>)
      reads this, Repr
      requires Valid() && n <= |down|
      ensures |r| == n && forall k :: 0 <= k < n ==> r[k] == SubAt(k)
      decreases Repr, 1, n
    {
      if n == 0 then [] else Subs(n - 1) + [SubAt(n - 1)]
    }

    /** Binary search: the index of `name`, or -pos-1 for the place to put it. */
    method SubtreePos(name: string) returns (pos: int)
      requires Valid() && SortedDown(Value().down)
      ensures 0 <= pos ==> pos < |down| && down[pos].name == name
      ensures pos < 0 ==> -pos - 1 <= |down| && Gap(Value().down, name, -pos - 1)
    {
      hide SubtreeNameCmp;
      ghost var subs := Value().down;
      assert forall k :: 0 <= k < |down| ==> subs[k] == SubAt(k) && subs[k].name == down[k].name;
      var lo, hi := 0, |down|;
      while lo < hi
        invariant 0 <= lo <= hi <= |down|
        invariant forall k :: 0 <= k < lo ==> SubtreeNameCmp(subs[k].name, name) < 0
        invariant forall k :: hi <= k < |down| ==> SubtreeNameCmp(name, subs[k].name) < 0
      {
        var mi := (lo + hi) / 2;
        var cmp := SubtreeNameCmp(name, down[mi].name);
        CmpFacts(name, down[mi].name);
        CmpFacts(down[mi].name, name);
        if cmp == 0 {
          return mi;
        }
        if cmp < 0 {
          forall k | mi < k < |down|
            ensures SubtreeNameCmp(name, subs[k].name) < 0
          {
            CmpTrans(name, subs[mi].name, subs[k].name);
          }
          hi := mi;
        } else {
          forall k | 0 <= k < mi
            ensures SubtreeNameCmp(subs[k].name, name) < 0
          {
            CmpTrans(subs[k].name, subs[mi].name, name);
          }
          lo := mi + 1;
        }
      }
      return -lo - 1;
    }

    // ---------------------------------------------------------------- editing the subtree list

    /** `list` could be the subtree list: its nodes are valid, belong to this node and share nothing. */
    ghost predicate Owns(list: seq<SubTree>)
      reads this, Repr
    {
      && this in Repr
      && (forall k :: 0 <= k < |list| && list[k].tree != null ==>
            list[k].tree in Repr && list[k].tree.Repr <= Repr && this !in list[k].tree.Repr && list[k].tree.Valid())
      && (forall j, k :: 0 <= j < k < |list| && list[j].tree != null && list[k].tree != null ==>
            list[j].tree.Repr !! list[k].tree.Repr)
    }

    /** The list's entries as values. */
    ghost predicate Shows(list: seq<SubTree>, subs: seq<Sub>)
      reads this, Repr
    {
      Owns(list) && |subs| == |list| && forall k :: 0 <= k < |list| ==> subs[k] == SubOf(list[k])
    }

    lemma ShowsDown()
      requires Valid()
      ensures Shows(down, Value().down)
    {
      assert forall k :: 0 <= k < |down| ==> Value().down[k] == SubAt(k) == SubOf(down[k]);
    }

    /** Entries with nodes of the list, each at most once, or without. */
    lemma OwnsSome(list: seq<SubTree>, from: seq<nat>)
      requires Valid() && |from| == |list|
      requires forall k :: 0 <= k < |list| ==>
        list[k].tree == null || (from[k] < |down| && list[k].tree == down[from[k]].tree)
      requires forall j, k :: 0 <= j < k < |list| ==> from[j] != from[k]
      ensures Owns(list)
    {
      forall j, k | 0 <= j < k < |list| && list[j].tree != null && list[k].tree != null
        ensures list[j].tree.Repr !! list[k].tree.Repr
      {
        var a, b := from[j], from[k];
        assert a < b ==> down[a].tree.Repr !! down[b].tree.Repr;
        assert b < a ==> down[b].tree.Repr !! down[a].tree.Repr;
      }
    }

    method SetDown(list: seq<SubTree>, ghost subs: seq<Sub>)
      requires Valid() && Shows(list, subs)
      modifies this`down
      ensures Valid() && down == list && Value() == old(Value()).(down := subs)
    {
      down := list;
      assert forall k :: 0 <= k < |down| ==> SubAt(k) == SubOf(list[k]) == subs[k];
      SubsAre(subs);
    }

    lemma SubsAre(subs: seq<Sub>)
      requires Valid() && |subs| == |down| && forall k :: 0 <= k < |subs| ==> subs[k] == SubAt(k)
      ensures Value().down == subs
    {
      hide SubAt;
    }

    /** The subtree at `pos` leaves the list. */
    method Remove(pos: nat)
      requires Valid() && pos < |down|
      modifies this`down
      ensures Valid() && Value() == old(Value()).(down := old(Value().down)[..pos] + old(Value().down)[pos + 1..])
    {
      hide SubOf;
      ghost var subs := Value().down;
      ShowsDown();
      var list := down[..pos] + down[pos + 1..];
      OwnsSome(list, seq(|list|, k requires 0 <= k < |list| => if k < pos then k else k + 1));
      SetDown(list, subs[..pos] + subs[pos + 1..]);
    }

    /** A new subtree without a node goes to `pos`. */
    method Insert(pos: nat, name: string)
      requires Valid() && pos <= |down|
      modifies this`down
      ensures Valid() && |down| == |old(down)| + 1 && down[pos].name == name
      ensures Value() ==
        old(Value()).(down := old(Value().down)[..pos] + [Sub(name, false, None)] + old(Value().down)[pos..])
    {
      hide SubOf;
      ghost var subs := Value().down;
      ShowsDown();
      InsertShown(pos, name, subs);
      SetDown(down[..pos] + [SubTree(name, false, null)] + down[pos..],
              subs[..pos] + [Sub(name, false, None)] + subs[pos..]);
    }

    lemma InsertShown(pos: nat, name: string, subs: seq<Sub>)
      requires Valid() && pos <= |down| && Shows(down, subs)
      ensures Shows(down[..pos] + [SubTree(name, false, null)] + down[pos..],
                    subs[..pos] + [Sub(name, false, None)] + subs[pos..])
    {
      hide SubOf;
      var n, list := |down|, down[..pos] + [SubTree(name, false, null)] + down[pos..];
      var from := seq(|list|, k requires 0 <= k < |list| => if k < pos then k else if k == pos then n else k - 1);
      OwnsSome(list, from);
      NewSub(name);
    }

    static lemma NewSub(name: string)
      ensures SubOf(SubTree(name, false, null)) == Sub(name, false, None)
    {
    }

    /** Changing the mark of the subtree at `pos`. */
    method Mark(pos: nat, used: bool)
      requires Valid() && pos < |down|
      modifies this`down
      ensures Valid() && |down| == |old(down)| && down[pos].tree == old(down[pos].tree)
      ensures Value() == old(Value()).(down := old(Value().down)[pos := old(Value().down)[pos].(used := used)])
    {
      ghost var subs := Value().down;
      ShowsDown();
      var list := down[pos := down[pos].(used := used)];
      OwnsSome(list, seq(|list|, k requires 0 <= k < |list| => k));
      SetDown(list, subs[pos := subs[pos].(used := used)]);
    }

    /** No subtree is known to be needed yet. */
    method Unmark()
      requires Valid()
      modifies this`down
      ensures Valid() && Value() == old(Value()).(down := Value().down) && |Value().down| == |old(Value().down)|
      ensures forall k :: 0 <= k < |Value().down| ==> Value().down[k] == old(Value().down)[k].(used := false)
    {
      ghost var subs := Value().down;
      for i := 0 to |down|
        invariant Valid() && |down| == |subs| && Value() == old(Value()).(down := Value().down)
        invariant forall k :: 0 <= k < i ==> Value().down[k] == subs[k].(used := false)
        invariant forall k :: i <= k < |subs| ==> Value().down[k] == subs[k]
      {
        Mark(i, false);
      }
    }

    /** Giving the subtree at `pos` a node of its own. */
    method Attach(pos: nat, t: Tree)
      requires Valid() && pos < |down| && t.Valid() && t.Repr !! Repr
      modifies this`down, this`Repr
      ensures Valid() && Repr == old(Repr) + t.Repr && |down| == |old(down)|
      ensures down[pos] == old(down[pos]).(tree := t)
      ensures Value() ==
        old(Value()).(down := old(Value().down)[pos := old(Value().down)[pos].(tree := Some(old(t.Value())))])
    {
      ghost var d, subs := down, Value().down;
      assert forall k :: 0 <= k < |d| ==> subs[k] == SubAt(k);
      down := down[pos := down[pos].(tree := t)];
      Repr := Repr + t.Repr;
      assert forall k :: 0 <= k < |down| ==> down[k] == if k == pos then d[k].(tree := t) else d[k];
      assert Valid();
      SubsAre(subs[pos := subs[pos].(tree := Some(t.Value()))]);
    }

    /** A node for the subtree at `pos`, if it has none. */
    method EnsureTree(pos: nat)
      requires Valid() && pos < |down|
      modifies this`down, this`Repr
      ensures Valid() && |down| == |old(down)| && down[pos].tree != null && fresh(Repr - old(Repr)) && old(Repr) <= Repr
      ensures old(down[pos].tree) != null ==> Value() == old(Value())
      ensures old(down[pos].tree) == null ==>
        Value() == old(Value()).(down := old(Value().down)[pos := old(Value().down)[pos].(tree := Some(EMPTY))])
    {
      if down[pos].tree == null {
        var t := new Tree();
        Attach(pos, t);
      }
    }

    /** Compacting a copy of the subtree list, the entries in use moving to the front. */
    method Compact(ghost subs: seq<Sub>) returns (list: seq<SubTree>, ghost ix: seq<nat>)
      requires |subs| == |down| && forall k :: 0 <= k < |down| ==> subs[k].used == down[k].used
      ensures Picks(down, list, ix, |down|) && Picks(subs, UsedOnly(subs), ix, |down|)
    {
      hide UsedOnly;
      NoneUsed(subs);
      list := down;
      var dst: nat := 0;
      ix := [];
      for src := 0 to |down|
        invariant dst <= src && |list| == |down| && list[src..] == down[src..]
        invariant Picks(down, list[..dst], ix, src) && Picks(subs, UsedOnly(subs[..src]), ix, src)
      {
        var s := list[src];
        assert s == list[src..][0] == down[src];
        NextUsed(subs, src);
        ghost var was := list;
        if s.used {
          list := list[dst := s];
          dst := dst + 1;
          assert list[..dst] == was[..dst - 1] + [down[src]];
          PickOne(down, was[..dst - 1], ix, src);
          PickOne(subs, UsedOnly(subs[..src]), ix, src);
          ix := ix + [src];
        } else {
          PickNone(down, list[..dst], ix, src);
          PickNone(subs, UsedOnly(subs[..src]), ix, src);
        }
        assert list[src + 1..] == was[src..][1..];
      }
      assert subs[..|down|] == subs;
      list := list[..dst];
    }

    /** Subtrees not in use go. */
    method DiscardUnused()
      requires Valid()
      modifies this`down
      ensures Valid() && Value() == old(Value()).(down := UsedOnly(old(Value().down)))
    {
      hide UsedOnly, SubOf;
      ghost var subs := Value().down;
      ShowsDown();
      UsedShown();
      var list;
      ghost var ix;
      list, ix := Compact(subs);
      OwnsSome(list, ix);
      SetDown(list, UsedOnly(subs));
    }

    lemma UsedShown()
      requires Valid()
      ensures forall k :: 0 <= k < |down| ==> Value().down[k].used == down[k].used
    {
      assert forall k :: 0 <= k < |down| ==> Value().down[k] == SubAt(k);
    }

    /** The node forgets what it recorded. */
    method Forget()
      requires Valid()
      modifies this`entryCount
      ensures Valid() && Value() == old(Value()).(entryCount := -1)
    {
      ghost var subs := Value().down;
      assert forall k :: 0 <= k < |down| ==> subs[k] == SubAt(k);
      entryCount := -1;
      assert forall k :: 0 <= k < |down| ==> SubAt(k) == subs[k];
      assert Value().down == subs;
    }

    /** Invalidating below the subtree at `pos` leaves the others alone. */
    method InvalidateBelow(pos: nat, path: string)
      requires Valid() && pos < |down| && down[pos].tree != null && AllSorted(down[pos].tree.Value())
      modifies down[pos].tree.Repr
      ensures Valid()
      ensures Value() == old(Value()).(down := old(Value().down)[pos :=
        old(Value().down)[pos].(tree := Some(Invalidated(old(down[pos].tree.Value()), path)))])
      decreases Repr, 0
    {
      hide SubtreeNameCmp, Invalidated, AllSorted;
      ghost var subs := Value().down;
      assert forall k :: 0 <= k < |down| ==> subs[k] == SubAt(k);
      var t := down[pos].tree;
      t.InvalidatePath(path);
      assert forall k :: 0 <= k < |down| && k != pos ==> SubAt(k) == subs[k];
      assert Value().down == subs[pos := subs[pos].(tree := Some(t.Value()))];
    }

    lemma SubsSorted(pos: nat)
      requires Valid() && AllSorted(Value()) && pos < |down| && down[pos].tree != null
      ensures AllSorted(down[pos].tree.Value()) && Value().down[pos].tree == Some(down[pos].tree.Value())
    {
      hide SubtreeNameCmp;
      assert Value().down[pos] == SubAt(pos);
    }

    /** Invalidating a path, in place along the path. */
    method InvalidatePath(path: string)
      requires Valid() && AllSorted(Value())
      modifies Repr
      ensures Valid() && Repr == old(Repr)
      ensures Value() == Invalidated(old(Value()), path)
      decreases Repr, 1
    {
      hide SubtreeNameCmp, FirstSlash, SubNamed;
      ghost var it := Value();
      var n := FirstSlash(path);
      var pos := SubtreePos(path[..n]);
      FoundAt(path[..n], pos);
      Forget();
      if n == |path| {
        assert path[..n] == path;
        if 0 <= pos {
          Remove(pos);
        }
      } else if 0 <= pos && down[pos].tree != null {
        InvalidateBelow(pos, path[n + 1..]);
      }
    }

    lemma FoundAt(name: string, pos: int)
      requires Valid() && AllSorted(Value()) && pos < |down|
      requires if 0 <= pos then down[pos].name == name else Gap(Value().down, name, -pos - 1)
      ensures SubNamed(Value().down, name) == if pos >= 0 then Some(pos) else None
      ensures 0 <= pos ==> Value().down[pos] == SubAt(pos)
      ensures 0 <= pos && down[pos].tree != null ==> AllSorted(down[pos].tree.Value())
    {
      hide SubtreeNameCmp, SubNamed;
      FoundIsNamed(Value().down, name, pos);
      if 0 <= pos && down[pos].tree != null { SubsSorted(pos); }
    }

    /** The subtree called `name`, inserted without a node when it is missing. */
    method FindSubtree(name: string) returns (pos: nat)
      requires Valid() && SortedDown(Value().down)
      modifies this`down
      ensures Valid() && pos < |down| && SortedDown(Value().down)
      ensures Value() == old(Value()).(down := Value().down) && Grown(old(Value().down), Value().down, pos, name)
    {
      hide SortedDown, Gap;
      var p := SubtreePos(name);
      if p >= 0 {
        pos := p;
        assert Value().down[pos] == SubAt(pos);
      } else {
        pos := -p - 1;
        InsertKeepsSorted(Value().down, pos, Sub(name, false, None));
        Insert(pos, name);
      }
    }

    // ---------------------------------------------------------------- updating

    /** Bringing the node of directory `base` up to date. `entries` is the index from the directory's first entry on. */
    method UpdateOne(entries: seq<Entry>, base: string, flags: Flags, h: seq<Line> -> Sha, store: ObjectStore,
                     ghost idx: seq<Entry>) returns (r: Option<nat>)
      requires Valid() && store !in Repr
      requires WfNames(idx) && Holds(entries, idx, base) && ValidFor(h, Value(), idx, base)
      modifies Repr, store
      ensures Valid() && fresh(Repr - old(Repr)) && store !in Repr
      ensures ValidFor(h, Value(), idx, base)
      ensures r.Some? ==> entryCount == r.value == |Below(idx, base)| && sha == TreeHash(h, idx, base)
      ensures r.Some? && !(old(entryCount) >= 0 && old(sha) in old(store.objects)) ==>
        OnePerDir(Value().down, entries, base)
      ensures r.Some? && !flags.dryRun ==> sha in store.objects
      ensures old(store.objects) <= store.objects
      ensures Counted(r.Some?, h, idx, base, flags, store.objects, old(store.failures), store.failures)
      ensures r.Some? && !(old(entryCount) >= 0 && old(sha) in old(store.objects)) && !flags.missingOk ==>
        AllPresent(h, idx, base, store.objects)
      decreases |entries|, if entries == [] then 0 else |entries[0].name| - |base|, 3
    {
      hide Lines, Below, Under, Lead, OnePerDir, TreeHash, ValidFor, Holds, Current, UsedStored, Missing, AllPresent;
      ValidParts(h, Value(), idx, base);
      if 0 <= entryCount && sha in store.objects {
        return Some(entryCount);
      }
      var updated := UpdateSubtrees(entries, base, flags, h, store, idx);
      if !updated {
        ValidAgain(h, Value(), idx, base);
        return None;
      }
      DiscardKeepsCurrent(h, Value().down, entries, idx, base);
      DiscardKeepsStored(h, Value().down, idx, base, store.objects);
      DiscardUnused();
      r := WriteLevel(entries, base, flags, h, store, idx);
      ValidParts(h, Value(), idx, base);
    }

    /** Hashing and writing the tree object of this level, its subtrees being current. */
    method WriteLevel(entries: seq<Entry>, base: string, flags: Flags, h: seq<Line> -> Sha, store: ObjectStore,
                      ghost idx: seq<Entry>) returns (r: Option<nat>)
      requires Valid() && store !in Repr
      requires WfNames(idx) && Holds(entries, idx, base) && Current(h, Value().down, entries, idx, base)
      requires entryCount >= 0 ==> entryCount == |Below(idx, base)| && sha == TreeHash(h, idx, base)
      requires !flags.dryRun ==> UsedStored(Value().down, store.objects)
      modifies this`entryCount, this`sha, store
      ensures Valid() && ValidFor(h, Value(), idx, base) && Value().down == old(Value().down)
      ensures r.Some? ==> entryCount == r.value == |Below(idx, base)| && sha == TreeHash(h, idx, base)
      ensures r.Some? && !flags.dryRun ==> sha in store.objects
      ensures old(store.objects) <= store.objects
      ensures Counted(r.Some?, h, idx, base, flags, store.objects, old(store.failures), store.failures)
      ensures r.Some? && !flags.missingOk ==> AllPresent(h, idx, base, store.objects)
    {
      hide Lines, Below, ValidFor, Holds, Current, UsedStored, Missing, AllPresent;
      CurrentSubs(h, Value().down, entries, idx, base);
      var i, lines := TreeLines(entries, base, flags, h, store, idx);
      ghost var objects := store.objects;
      if i.None? {
        ValidAgain(h, Value(), idx, base);
        return None;
      }
      Record(entryCount, h(lines));
      ValidAgain(h, Value(), idx, base);
      if !flags.dryRun {
        var written := store.WriteTree(h, lines);
        if !written {
          return None;
        }
        if !flags.missingOk { StaysPresent(h, idx, base, objects, store.objects); }
      }
      Record(i.value, sha);
      ValidAgain(h, Value(), idx, base);
      r := i;
    }

    /** Setting what the node records. */
    method Record(count: int, sha: Sha)
      requires Valid()
      modifies this`entryCount, this`sha
      ensures Valid() && Value() == Node(count, sha, old(Value().down)) && entryCount == count && this.sha == sha
    {
      hide SubOf;
      ghost var subs := Value().down;
      assert forall k :: 0 <= k < |down| ==> subs[k] == SubAt(k);
      entryCount := count;
      this.sha := sha;
      assert forall k :: 0 <= k < |down| ==> SubAt(k) == subs[k];
      SubsAre(subs);
    }

    /** Bringing the subdirectories up to date, one run at a time. */
    method UpdateSubtrees(entries: seq<Entry>, base: string, flags: Flags, h: seq<Line> -> Sha, store: ObjectStore,
                          ghost idx: seq<Entry>) returns (ok: bool)
      requires Valid() && store !in Repr
      requires WfNames(idx) && Holds(entries, idx, base) && SubsValid(h, Value().down, idx, base)
      modifies Repr, store
      ensures Valid() && fresh(Repr - old(Repr)) && store !in Repr
      ensures Value() == old(Value()).(down := Value().down) && SubsValid(h, Value().down, idx, base)
      ensures ok ==> Current(h, Value().down, entries, idx, base)
      ensures ok && !flags.dryRun ==> UsedStored(Value().down, store.objects)
      ensures old(store.objects) <= store.objects
      ensures Counted(ok, h, idx, base, flags, store.objects, old(store.failures), store.failures)
      decreases |entries|, if entries == [] then 0 else |entries[0].name| - |base|, 2
    {
      hide Lines, Below, SubtreeNameCmp, Under, ValidFor, ValidSub, Sorted, AllReady, UsedAreDirs, IsDirName, IsDir,
           Comp, Lead, Boundary, Holds, SubsValid, IsRun, UsedStored, Missing;
      ghost var before := Value().down;
      Unmark();
      UnmarkKeeps(h, before, Value().down, entries, idx, base);
      NoneUsedStored(Value().down, store.objects);
      LevelStarts(entries, idx, base);
      var i: nat := 0;
      while i < |entries| && Under(entries[i], base)
        invariant Valid() && fresh(Repr - old(Repr)) && store !in Repr && Value() == old(Value()).(down := Value().down)
        invariant i <= Lead(entries, base) && WfNames(entries) && Boundary(entries, i, base)
        invariant SubsValid(h, Value().down, idx, base)
        invariant AllReady(Value().down, entries, i, base) && UsedAreDirs(Value().down, entries, i, base)
        invariant old(store.objects) <= store.objects && store.failures == old(store.failures)
        invariant !flags.dryRun ==> UsedStored(Value().down, store.objects)
      {
        if !IsDir(entries[i], base) {
          FilePasses(entries, i, base);
          FilePassesReady(Value().down, entries, i, base);
          i := i + 1;
          continue;
        }
        var count := UpdateRun(entries, i, base, flags, h, store, idx);
        if count.None? {
          return false;
        }
        i := i + count.value;
      }
      ok := true;
    }

    /** Updating the node of the subtree at `pos`, and no other. */
    method UpdateBelow(pos: nat, entries: seq<Entry>, base: string, flags: Flags, h: seq<Line> -> Sha,
                       store: ObjectStore, ghost idx: seq<Entry>) returns (r: Option<nat>)
      requires Valid() && store !in Repr && pos < |down| && down[pos].tree != null
      requires WfNames(idx) && Holds(entries, idx, base) && ValidFor(h, down[pos].tree.Value(), idx, base)
      modifies Repr, store
      ensures Valid() && fresh(Repr - old(Repr)) && store !in Repr && down == old(down)
      ensures ValidFor(h, down[pos].tree.Value(), idx, base)
      ensures Value() == old(Value()).(down := old(Value().down)[pos :=
        Sub(down[pos].name, down[pos].used, Some(down[pos].tree.Value()))])
      ensures r.Some? ==> down[pos].tree.Value().entryCount == r.value == |Below(idx, base)|
      ensures r.Some? && !flags.dryRun ==> down[pos].tree.Value().sha in store.objects
      ensures old(store.objects) <= store.objects
      ensures Counted(r.Some?, h, idx, base, flags, store.objects, old(store.failures), store.failures)
      decreases |entries|, if entries == [] then 0 else |entries[0].name| - |base|, 4
    {
      hide Lines, Below, SubtreeNameCmp, ValidFor, Holds, OnePerDir, TreeHash, Counted, AllPresent, UsedStored, Subs,
           SubOf, WfNames;
      ghost var d, subs := down, Value().down;
      assert forall k :: 0 <= k < |d| ==> subs[k] == SubAt(k);
      var t := down[pos].tree;
      r := t.UpdateOne(entries, base, flags, h, store, idx);
      Repr := Repr + t.Repr;
      assert Valid();
      assert forall k :: 0 <= k < |down| && k != pos ==> SubAt(k) == subs[k];
      SubsAre(subs[pos := Sub(d[pos].name, d[pos].used, Some(t.Value()))]);
    }

    /** Finding or creating the subtree of the entry at `i`, and updating it from there. */
    method UpdateRun(entries: seq<Entry>, i: nat, base: string, flags: Flags, h: seq<Line> -> Sha, store: ObjectStore,
                     ghost idx: seq<Entry>) returns (count: Option<nat>)
      requires Valid() && store !in Repr
      requires WfNames(idx) && Holds(entries, idx, base) && SubsValid(h, Value().down, idx, base)
      requires i < Lead(entries, base) && DirIn(entries[i], base) && Boundary(entries, i, base)
      requires AllReady(Value().down, entries, i, base) && UsedAreDirs(Value().down, entries, i, base)
      requires !flags.dryRun ==> UsedStored(Value().down, store.objects)
      modifies Repr, store
      ensures Valid() && fresh(Repr - old(Repr)) && store !in Repr
      ensures Value() == old(Value()).(down := Value().down) && SubsValid(h, Value().down, idx, base)
      ensures count.Some? ==>
        count.value >= 1 && i + count.value <= Lead(entries, base) && Boundary(entries, i + count.value, base)
      ensures count.Some? ==> AllReady(Value().down, entries, i + count.value, base)
      ensures count.Some? ==> UsedAreDirs(Value().down, entries, i + count.value, base)
      ensures count.Some? && !flags.dryRun ==> UsedStored(Value().down, store.objects)
      ensures old(store.objects) <= store.objects
      ensures Counted(count.Some?, h, idx, base, flags, store.objects, old(store.failures), store.failures)
      decreases |entries|, |entries[0].name| - |base|, 1
    {
      hide Lines, Below, SubtreeNameCmp, Under, ValidFor, ValidSub, Sorted, AllReady, UsedAreDirs, IsDirName, IsDir,
           Comp, Lead, Boundary, SortedDown, SubOf, Holds, IsRun, SubsValid, UsedStored, Counted, Subs,
           TreeHash;
      var name := Comp(entries[i], base);
      ghost var n := RunFrom(entries, idx, i, base);
      var pos;
      ghost var down1;
      pos, down1 := OpenSubtree(name, h, entries, i, idx, base);
      ghost var objects := store.objects;
      count := UpdateBelow(pos, entries[i..], SubBase(base, name), flags, h, store, idx);
      CountedBelow(count.Some?, h, idx, base, name, flags, store.objects, old(store.failures), store.failures);
      ghost var t' := down[pos].tree.Value();
      assert Value().down == down1[pos := Sub(name, down1[pos].used, Some(t'))];
      StoreKeeps(h, down1, pos, down1[pos].used, t', idx, base);
      if count.Some? {
        StoreKeeps(h, down1, pos, true, t', idx, base);
        RunDone(down1, pos, t', entries, i, n, base, name);
        if !flags.dryRun { StoredStays(down1, pos, name, t', objects, store.objects); }
        Mark(pos, true);
        assert Value().down == down1[pos := Sub(name, true, Some(t'))];
      }
    }

    /** The subtree called `name`, with a node.  `found` is the list with the subtree in it. */
    method OpenSubtree(name: string, h: seq<Line> -> Sha, ghost entries: seq<Entry>, ghost i: nat,
                       ghost idx: seq<Entry>, ghost base: string) returns (pos: nat, ghost found: seq<Sub>)
      requires Valid() && WfNames(idx) && SubsValid(h, Value().down, idx, base) && '/' !in name
      requires AllReady(Value().down, entries, i, base) && UsedAreDirs(Value().down, entries, i, base)
      modifies this`down, this`Repr
      ensures Valid() && fresh(Repr - old(Repr)) && pos < |down| && down[pos].tree != null
      ensures Value() == old(Value()).(down := Value().down) && |found| == |Value().down| && found[pos].name == name
      ensures Value().down == found || Value().down == found[pos := found[pos].(tree := Some(EMPTY))]
      ensures down[pos].name == name && down[pos].used == found[pos].used
      ensures ValidFor(h, down[pos].tree.Value(), idx, SubBase(base, name))
      ensures SubsValid(h, found, idx, base) && AllReady(found, entries, i, base)
      ensures UsedAreDirs(found, entries, i, base)
      ensures forall objects :: UsedStored(old(Value().down), objects) ==> UsedStored(found, objects)
    {
      hide ValidFor, ValidSub, AllReady, UsedAreDirs, SortedDown, SubOf;
      ghost var before := Value().down;
      pos := FindSubtree(name);
      found := Value().down;
      GrowKeeps(h, before, found, pos, name, entries, i, idx, base);
      GrowKeepsStored(before, found, pos, name);
      ShowsAt(pos);
      StartsValid(h, found[pos], idx, base);
      EnsureTree(pos);
      ShowsAt(pos);
    }

    lemma ShowsAt(pos: nat)
      requires Valid() && pos < |down|
      ensures Value().down[pos] == Sub(down[pos].name, down[pos].used,
        if down[pos].tree == null then None else Some(down[pos].tree.Value()))
      ensures down[pos].tree != null ==> down[pos].tree.Valid()
      ensures down[pos].tree != null ==> down[pos].tree.Value().entryCount == down[pos].tree.entryCount
      ensures down[pos].tree != null ==> down[pos].tree.Value().sha == down[pos].tree.sha
    {
      assert Value().down[pos] == SubAt(pos);
    }

    // ---------------------------------------------------------------- writing the tree object

    /** The line of the subdirectory run at `i`, and the length of the run. */
    method RunEntry(entries: seq<Entry>, i: nat, base: string, h: seq<Line> -> Sha, ghost idx: seq<Entry>)
      returns (count: nat, line: Line)
      requires Valid() && WfNames(idx) && Holds(entries, idx, base) && Current(h, Value().down, entries, idx, base)
      requires i < Lead(entries, base) && DirIn(entries[i], base) && Boundary(entries, i, base)
      ensures count >= 1 && i + count <= Lead(entries, base) && Boundary(entries, i + count, base)
      ensures SplitsOff(h, entries, i, count, base, line)
      ensures line.sha == TreeHash(h, idx, SubBase(base, Comp(entries[i], base)))
      ensures Below(idx, SubBase(base, Comp(entries[i], base))) != []
      ensures forall objects :: UsedStored(Value().down, objects) ==> line.sha in objects
    {
      hide Lines, Below, SubtreeNameCmp, Under, ValidSub, Sorted, IsDir, Comp, Lead, Boundary, UsedAreDirs, HasReady,
           Before, TreeHash, LevelLines, SubOf;
      var name := Comp(entries[i], base);
      ghost var n := RunFrom(entries, idx, i, base);
      RunLine(h, entries, idx, i, n, base, name);
      var pos := SubtreePos(name);
      if pos >= 0 { ShowsAt(pos); }
      FoundReady(h, Value().down, name, pos, idx, base);
      count := down[pos].tree.entryCount;
      line := Line(S_IFDIR, name, down[pos].tree.sha);
    }

    /** The lines of the tree object, one for each file and each run; None when an object is missing. */
    method TreeLines(entries: seq<Entry>, base: string, flags: Flags, h: seq<Line> -> Sha, store: ObjectStore,
                     ghost idx: seq<Entry>) returns (r: Option<nat>, lines: seq<Line>)
      requires Valid() && WfNames(idx) && Holds(entries, idx, base) && Current(h, Value().down, entries, idx, base)
      requires !flags.dryRun ==> UsedStored(Value().down, store.objects)
      ensures r.Some? ==> r.value == |Below(idx, base)| && lines == Lines(h, Below(idx, base), base)
      ensures r.None? <==> !flags.missingOk && !AllPresent(h, idx, base, store.objects)
      ensures r.None? ==> Missing(h, idx, base, flags, store.objects)
    {
      hide Lines, Below, SubtreeNameCmp, Under, ValidSub, Sorted, IsDir, Comp, Lead, Boundary, Current, LevelLines,
           Missing, UsedStored, TreeHash;
      lines := [];
      var i: nat := 0;
      ghost var m := Lead(entries, base);
      LevelStarts(entries, idx, base);
      LevelWhole(h, entries, idx, base);
      while i < |entries| && Under(entries[i], base)
        invariant i <= m && Boundary(entries, i, base)
        invariant lines + LevelLines(h, entries, i, base) == Lines(h, Below(idx, base), base)
        invariant !flags.missingOk ==> forall l :: l in lines ==> !LineMissing(l, store.objects)
      {
        var e := entries[i];
        var line, count: nat;
        if IsDir(e, base) {
          count, line := RunEntry(entries, i, base, h, idx);
        } else {
          FilePasses(entries, i, base);
          FileLine(h, entries, i, base);
          count := 1;
          line := Line(e.mode, Comp(e, base), e.sha);
        }
        ghost var rest := LevelLines(h, entries, i + count, base);
        assert lines + ([line] + rest) == lines + [line] + rest;
        if line.mode != S_IFGITLINK && !flags.missingOk && line.sha !in store.objects {
          assert (lines + [line] + rest)[|lines|] == line && LineMissing(line, store.objects);
          EntryMissing(h, entries, i, idx, base, flags, store.objects, line);
          return None, lines;
        }
        lines := lines + [line];
        i := i + count;
      }
      LevelDone(h, entries, base);
      r := Some(i);
    }

    /** Updating the whole cache: whatever was cached, success means the count and hash of the index itself. */
    method Update(entries: seq<Entry>, flags: Flags, h: seq<Line> -> Sha, store: ObjectStore) returns (ok: bool)
      requires Valid() && store !in Repr && WfNames(entries) && Sorted(entries) && ValidFor(h, Value(), entries, "")
      modifies Repr, store
      ensures Valid() && ValidFor(h, Value(), entries, "") && fresh(Repr - old(Repr)) && store !in Repr
      ensures ok ==> entryCount == |entries| && sha == h(Lines(h, entries, ""))
      ensures ok && !flags.dryRun ==> sha in store.objects
      ensures !ok ==> Missing(h, entries, "", flags, store.objects) || store.failures > old(store.failures)
      ensures flags.missingOk && flags.dryRun ==> ok
    {
      hide Lines, SubtreeNameCmp, ValidFor;
      BelowAll(entries, "");
      LeadIsFirst(entries, "", |entries|);
      var r := UpdateOne(entries, "", flags, h, store, entries);
      ok := r.Some?;
    }
  }

  /** A list entry as a value. */
  ghost function SubOf(s: SubTree): Sub
    reads if s.tree == null then {} else {s.tree} + s.tree.Repr
    requires s.tree != null ==> s.tree.Valid()
  {
    Sub(s.name, s.used, if s.tree == null then None else Some(s.tree.Value()))
  }

  lemma NextUsed(subs: seq<Sub>, i: nat)
    requires i < |subs|
    ensures UsedOnly(subs[..i + 1]) == UsedOnly(subs[..i]) + if subs[i].used then [subs[i]] else []
  {
    assert subs[..i + 1][..i] == subs[..i];
  }

  lemma NoneUsed(subs: seq<Sub>)
    ensures UsedOnly(subs[..0]) == []
  {
  }

  /** `r` consists of the elements of `s` at the ascending places `ix`, all before `n`. */
  ghost predicate Picks<T>(s: seq<T>, r: seq<T>, ix: seq<nat>, n: nat) {
    && |ix| == |r| && n <= |s|
    && (forall k :: 0 <= k < |ix| ==> ix[k] < n && r[k] == s[ix[k]])
    && (forall j, k :: 0 <= j < k < |ix| ==> ix[j] < ix[k])
  }

  lemma PickNone<T>(s: seq<T>, r: seq<T>, ix: seq<nat>, n: nat)
    requires Picks(s, r, ix, n) && n < |s|
    ensures Picks(s, r, ix, n + 1)
  {
  }

  lemma PickOne<T>(s: seq<T>, r: seq<T>, ix: seq<nat>, n: nat)
    requires Picks(s, r, ix, n) && n < |s|
    ensures Picks(s, r + [s[n]], ix + [n], n + 1)
  {
  }
}
