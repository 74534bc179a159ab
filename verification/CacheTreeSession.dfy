/** A cache over any run of index edits, each followed by its invalidation, and of updates
    (cache-tree.c:105-150, 372-385). */
module CacheTreeSession {
  import opened Common
  import opened CacheTreeSpec
  import opened CacheTreeNodes
  import opened CacheTreeUpdate
  import opened CacheTree

  /** `Edit` gives the index as it is after the entries of one path were added, removed or replaced. */
  datatype Step = Edit(path: string, after: seq<Entry>) | Update(flags: Flags)

  ghost predicate WfIndex(idx: seq<Entry>) {
    WfNames(idx) && Sorted(idx)
  }

  ghost predicate IsEdit(idx: seq<Entry>, idx': seq<Entry>, path: string) {
    exists before, x, y, after ::
      idx == before + x + after && idx' == before + y + after && Named(x, path) && Named(y, path)
  }

  /** The index before step `k`. */
  ghost function IndexAt(idx0: seq<Entry>, steps: seq<Step>, k: nat): seq<Entry>
    requires k <= |steps|
  {
    if k == 0 then idx0 else if steps[k - 1].Edit? then steps[k - 1].after else IndexAt(idx0, steps, k - 1)
  }

  ghost predicate WfSteps(idx0: seq<Entry>, steps: seq<Step>) {
    && WfIndex(idx0)
    && forall k :: 0 <= k < |steps| && steps[k].Edit? ==>
        WfIndex(steps[k].after) && IsEdit(IndexAt(idx0, steps, k), steps[k].after, steps[k].path)
  }

  lemma IndexSteps(idx0: seq<Entry>, steps: seq<Step>, k: nat)
    requires WfSteps(idx0, steps) && k <= |steps|
    ensures IndexAt(idx0, steps, 0) == idx0 && WfIndex(idx0)
    ensures k < |steps| ==>
      IndexAt(idx0, steps, k + 1) == if steps[k].Edit? then steps[k].after else IndexAt(idx0, steps, k)
    ensures k < |steps| && steps[k].Edit? ==>
      WfIndex(steps[k].after) && IsEdit(IndexAt(idx0, steps, k), steps[k].after, steps[k].path)
  {
  }

  lemma WfParts(a: seq<Entry>, b: seq<Entry>, c: seq<Entry>)
    requires WfNames(a + b + c)
    ensures WfNames(a) && WfNames(b) && WfNames(c)
  {
    var all := a + b + c;
    assert forall i :: 0 <= i < |a| ==> all[i] == a[i];
    assert forall i :: 0 <= i < |b| ==> all[|a| + i] == b[i];
    assert forall i :: 0 <= i < |c| ==> all[|a| + |b| + i] == c[i];
  }

  /** Invalidating an edited path makes the cache true of the new index. */
  lemma EditThenInvalidate(h: seq<Line> -> Sha, it: Node, idx: seq<Entry>, idx': seq<Entry>, path: string)
    requires WfNames(idx) && WfNames(idx') && IsEdit(idx, idx', path) && ValidFor(h, it, idx, "")
    ensures ValidFor(h, Invalidated(it, path), idx', "")
  {
    hide ValidFor, Invalidated, WfNames, SameElsewhere;
    var before, x, y, after :|
      idx == before + x + after && idx' == before + y + after && Named(x, path) && Named(y, path);
    WfParts(before, x, after);
    WfParts(before, y, after);
    EditIsLocal(before, x, y, after, path);
    assert "" + path == path;
    InvalidationIsSound(h, it, idx, idx', "", path);
  }

  lemma {:induction false} ValidIsSorted(h: seq<Line> -> Sha, it: Node, idx: seq<Entry>, base: string)
    requires WfNames(idx) && ValidFor(h, it, idx, base)
    ensures AllSorted(it)
    decreases it
  {
    hide SubtreeNameCmp, Below, Lines, SortedDown;
    forall k | 0 <= k < |it.down| && it.down[k].tree.Some?
      ensures AllSorted(it.down[k].tree.value)
    {
      assert ValidSub(h, it.down[k], idx, base);
      ValidIsSorted(h, it.down[k].tree.value, idx, SubBase(base, it.down[k].name));
    }
  }

  /** What an update recorded, if it succeeded, is the count and the hash of the index computed from nothing. */
  ghost predicate FromScratch(h: seq<Line> -> Sha, idx: seq<Entry>, r: Option<(int, Sha)>) {
    r.Some? ==> WfNames(idx) && r.value == (|idx|, h(Lines(h, idx, "")))
  }

  method TakeStep(t: Tree, idx: seq<Entry>, step: Step, h: seq<Line> -> Sha, store: ObjectStore)
    returns (next: seq<Entry>, r: Option<(int, Sha)>)
    requires t.Valid() && store !in t.Repr && WfIndex(idx) && ValidFor(h, t.Value(), idx, "")
    requires step.Edit? ==> WfIndex(step.after) && IsEdit(idx, step.after, step.path)
    modifies t.Repr, store
    ensures t.Valid() && fresh(t.Repr - old(t.Repr)) && store !in t.Repr
    ensures next == (if step.Edit? then step.after else idx) && WfIndex(next) && ValidFor(h, t.Value(), next, "")
    ensures FromScratch(h, idx, r) && (step == Update(Flags(true, true)) ==> r.Some?)
  {
    hide ValidFor, Invalidated, IsEdit, AllSorted, Lines, Sorted;
    match step {
      case Edit(path, after) =>
        ValidIsSorted(h, t.Value(), idx, "");
        EditThenInvalidate(h, t.Value(), idx, after, path);
        t.InvalidatePath(path);
        next, r := after, None;
      case Update(flags) =>
        var ok := t.Update(idx, flags, h, store);
        next, r := idx, if ok then Some((t.entryCount, t.sha)) else None;
    }
  }

  /** Whatever edits and updates came before, failed ones and dry runs included, an update that succeeds
      records what the index is then. */
  method Run(t: Tree, idx0: seq<Entry>, steps: seq<Step>, h: seq<Line> -> Sha, store: ObjectStore)
    returns (recorded: seq<Option<(int, Sha)>>)
    requires t.Valid() && store !in t.Repr && WfSteps(idx0, steps) && ValidFor(h, t.Value(), idx0, "")
    modifies t.Repr, store
    ensures t.Valid() && WfIndex(IndexAt(idx0, steps, |steps|))
    ensures ValidFor(h, t.Value(), IndexAt(idx0, steps, |steps|), "")
    ensures |recorded| == |steps|
    ensures forall k :: 0 <= k < |steps| ==> FromScratch(h, IndexAt(idx0, steps, k), recorded[k])
    ensures forall k :: 0 <= k < |steps| && steps[k] == Update(Flags(true, true)) ==> recorded[k].Some?
  {
    hide ValidFor, FromScratch, IsEdit, WfNames, Sorted, IndexAt, WfSteps;
    IndexSteps(idx0, steps, 0);
    recorded := [];
    var idx := idx0;
    for k := 0 to |steps|
      invariant t.Valid() && fresh(t.Repr - old(t.Repr)) && store !in t.Repr && |recorded| == k
      invariant idx == IndexAt(idx0, steps, k) && WfIndex(idx) && ValidFor(h, t.Value(), idx, "")
      invariant forall j :: 0 <= j < k ==> FromScratch(h, IndexAt(idx0, steps, j), recorded[j])
      invariant forall j :: 0 <= j < k && steps[j] == Update(Flags(true, true)) ==> recorded[j].Some?
    {
      IndexSteps(idx0, steps, k);
      var r;
      idx, r := TakeStep(t, idx, steps[k], h, store);
      recorded := recorded + [r];
    }
  }
}
