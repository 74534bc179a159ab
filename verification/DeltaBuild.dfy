/** Building the delta index: one entry per source block, culled buckets (diff-delta.c:142-292). */
module DeltaBuild {
  import opened Common
  import opened Rabin
  import opened DeltaFormat
  import opened DeltaIndex

  const HASH_LIMIT := 64

  // ---------------------------------------------------------------- culling one bucket

  /** Where the `k`-th survivor of an oversized bucket with `c` entries too many was. */
  function Survivor(k: nat, c: nat): nat {
    k + (k * c + HASH_LIMIT - 1) / HASH_LIMIT
  }

  /** An evenly thinned bucket. */
  ghost predicate Thinned(kept: seq<IndexEntry>, list: seq<IndexEntry>)
    requires |list| > HASH_LIMIT
  {
    |kept| <= HASH_LIMIT && forall k :: 0 <= k < |kept| ==> IsFrom(kept[k], list, Survivor(k, |list| - HASH_LIMIT))
  }

  ghost predicate IsFrom(e: IndexEntry, list: seq<IndexEntry>, at: nat) {
    at < |list| && e == list[at]
  }

  lemma MulMonotone(i: nat, j: nat, c: nat)
    ensures i <= j ==> i * c <= j * c
  {
  }

  lemma SurvivorsAscend(i: nat, j: nat, c: nat)
    requires i < j
    ensures Survivor(i, c) < Survivor(j, c)
  {
    MulMonotone(i, j, c);
  }

  lemma ThinnedAscends(kept: seq<IndexEntry>, list: seq<IndexEntry>)
    requires |list| > HASH_LIMIT && Thinned(kept, list) && Ascending(list)
    ensures Ascending(kept)
  {
    forall i, j | 0 <= i < j < |kept|
      ensures kept[i].ptr < kept[j].ptr
    {
      SurvivorsAscend(i, j, |list| - HASH_LIMIT);
    }
  }

  lemma ThinnedGrows(kept: seq<IndexEntry>, list: seq<IndexEntry>, entry: nat)
    requires |list| > HASH_LIMIT && Thinned(kept, list) && |kept| < HASH_LIMIT
    requires entry == Survivor(|kept|, |list| - HASH_LIMIT) < |list|
    ensures Thinned(kept + [list[entry]], list)
  {
    hide Survivor;
    var kept' := kept + [list[entry]];
    assert forall k :: 0 <= k < |kept| ==> kept'[k] == kept[k];
  }

  /** The accumulator's books: after keeping `m` and dropping `r` of `c + HASH_LIMIT` entries. */
  ghost predicate Balanced(m: nat, r: nat, c: nat, acc: int) {
    acc == m * c - HASH_LIMIT * r
  }

  lemma KeepNext(m: nat, r: nat, c: nat, acc: int)
    requires Balanced(m, r, c, acc) && -HASH_LIMIT < acc <= 0 && m + r < c + HASH_LIMIT && c > 0
    ensures m < HASH_LIMIT && m + r == Survivor(m, c) && Balanced(m + 1, r, c, acc + c)
  {
    MulMonotone(HASH_LIMIT, m, c);
  }

  /** Dropping never runs off the end of the list. */
  lemma DropNext(m: nat, r: nat, c: nat, acc: int)
    requires Balanced(m + 1, r, c, acc) && acc > 0 && m < HASH_LIMIT && c > 0
    ensures m + r + 1 < c + HASH_LIMIT && Balanced(m + 1, r + 1, c, acc - HASH_LIMIT)
  {
    assert (HASH_LIMIT - 1 - m) * (c + HASH_LIMIT) >= 0;
    assert (HASH_LIMIT - 1 - m) * (c + HASH_LIMIT)
        == HASH_LIMIT * c + HASH_LIMIT * HASH_LIMIT - HASH_LIMIT - (m + 1) * c - HASH_LIMIT * m;
  }

  /** When the list is used up the books balance at zero, with exactly the limit kept. */
  lemma AllSeen(m: nat, r: nat, c: nat, acc: int)
    requires Balanced(m, r, c, acc) && -HASH_LIMIT < acc <= 0 && m + r == c + HASH_LIMIT && c > 0
    ensures m == HASH_LIMIT && acc == 0
  {
    assert acc == (m - HASH_LIMIT) * (c + HASH_LIMIT);
  }

  lemma NothingSeen(c: nat)
    ensures Balanced(0, 0, c, 0)
  {
  }

  /** Thins an oversized bucket to exactly HASH_LIMIT entries, spread evenly.  `entry` is the list node
      under the cursor; it is only advanced past nodes that exist. */
  method CullBucket(list: seq<IndexEntry>) returns (kept: seq<IndexEntry>)
    requires |list| > HASH_LIMIT
    ensures |kept| == 64 && Thinned(kept, list)
  {
    hide Balanced, Survivor;
    var c := |list| - HASH_LIMIT;
    kept := [];
    var entry, acc := 0, 0;
    ghost var r := 0;
    NothingSeen(c);
    while entry < |list|
      invariant entry == |kept| + r <= |list| && -HASH_LIMIT < acc <= 0 && Balanced(|kept|, r, c, acc)
      invariant Thinned(kept, list)
      decreases |list| - entry
    {
      ghost var m := |kept|;
      KeepNext(m, r, c, acc);
      ThinnedGrows(kept, list, entry);
      kept := kept + [list[entry]];
      acc := acc + c;
      ghost var start := entry;
      while acc > 0
        invariant start <= entry == m + r < |list| && -HASH_LIMIT < acc && Balanced(m + 1, r, c, acc)
        decreases acc
      {
        DropNext(m, r, c, acc);
        entry, acc := entry + 1, acc - HASH_LIMIT;
        r := r + 1;
      }
      entry := entry + 1;
    }
    AllSeen(|kept|, r, c, acc);
  }

  // ---------------------------------------------------------------- one entry per block

  /** The entry of a source block: it ends at `ptr` and carries the fingerprint of its last 16 bytes. */
  ghost predicate TrueEntry(src: Bytes, e: IndexEntry) {
    RABIN_WINDOW <= e.ptr < |src| && e.val == Fingerprint(src[e.ptr - RABIN_WINDOW + 1..e.ptr + 1])
  }

  /** Every bucket lists blocks hashing to it, lowest address first, all at or above `from`. */
  ghost predicate Indexed(src: Bytes, hash: seq<seq<IndexEntry>>, from: nat) {
    forall i :: 0 <= i < |hash| ==> BucketIndexed(src, hash[i], i, |hash|, from)
  }

  ghost predicate BucketIndexed(src: Bytes, bucket: seq<IndexEntry>, i: nat, hsize: nat, from: nat) {
    && Ascending(bucket)
    && forall k :: 0 <= k < |bucket| ==>
      TrueEntry(src, bucket[k]) && bucket[k].ptr >= from && hsize > 0 && Slot(bucket[k].val, hsize) == i
  }

  ghost function Total(hash: seq<seq<IndexEntry>>): nat {
    if hash == [] then 0 else Total(hash[..|hash| - 1]) + |hash[|hash| - 1]|
  }

  lemma {:induction false} TotalUpdate(hash: seq<seq<IndexEntry>>, i: nat, bucket: seq<IndexEntry>)
    requires i < |hash|
    ensures Total(hash[i := bucket]) == Total(hash) - |hash[i]| + |bucket|
  {
    var last := |hash| - 1;
    if i == last {
      assert hash[i := bucket][..last] == hash[..last];
    } else {
      TotalUpdate(hash[..last], i, bucket);
      assert hash[i := bucket][..last] == hash[..last][i := bucket];
    }
  }

  lemma {:induction false} TotalOfEmpty(hash: seq<seq<IndexEntry>>)
    requires forall i :: 0 <= i < |hash| ==> hash[i] == []
    ensures Total(hash) == 0
  {
    if hash != [] { TotalOfEmpty(hash[..|hash| - 1]); }
  }

  lemma LowerFrom(src: Bytes, hash: seq<seq<IndexEntry>>, from: nat, from': nat)
    requires Indexed(src, hash, from) && from' <= from
    ensures Indexed(src, hash, from')
  {
    hide TrueEntry, Slot;
    forall i | 0 <= i < |hash|
      ensures BucketIndexed(src, hash[i], i, |hash|, from')
    {
      assert BucketIndexed(src, hash[i], i, |hash|, from);
    }
  }

  /** A new block goes in front of its bucket. */
  lemma AddBlock(src: Bytes, hash: seq<seq<IndexEntry>>, from: nat, e: IndexEntry)
    requires Indexed(src, hash, from) && hash != [] && TrueEntry(src, e) && e.ptr < from
    ensures Indexed(src, hash[Slot(e.val, |hash|) := [e] + hash[Slot(e.val, |hash|)]], e.ptr)
  {
    hide TrueEntry, Slot;
    var s := Slot(e.val, |hash|);
    var hash' := hash[s := [e] + hash[s]];
    forall i | 0 <= i < |hash'|
      ensures BucketIndexed(src, hash'[i], i, |hash'|, e.ptr)
    {
      assert BucketIndexed(src, hash[i], i, |hash|, from);
    }
  }

  /** A block identical to the one just above it takes over that block's entry. */
  lemma LowerBlock(src: Bytes, hash: seq<seq<IndexEntry>>, from: nat, e: IndexEntry)
    requires Indexed(src, hash, from) && hash != [] && TrueEntry(src, e) && e.ptr < from
    requires hash[Slot(e.val, |hash|)] != []
    ensures Indexed(src, hash[Slot(e.val, |hash|) := [e] + hash[Slot(e.val, |hash|)][1..]], e.ptr)
  {
    hide TrueEntry, Slot;
    var s := Slot(e.val, |hash|);
    var hash' := hash[s := [e] + hash[s][1..]];
    forall i | 0 <= i < |hash'|
      ensures BucketIndexed(src, hash'[i], i, |hash'|, e.ptr)
    {
      assert BucketIndexed(src, hash[i], i, |hash|, from);
    }
  }

  lemma CullKeepsIndexed(src: Bytes, hash: seq<seq<IndexEntry>>, i: nat, kept: seq<IndexEntry>)
    requires Indexed(src, hash, 0) && i < |hash| && |hash[i]| > HASH_LIMIT && Thinned(kept, hash[i])
    ensures Indexed(src, hash[i := kept], 0)
  {
    hide TrueEntry, Slot, Survivor;
    assert BucketIndexed(src, hash[i], i, |hash|, 0);
    ThinnedAscends(kept, hash[i]);
    var hash' := hash[i := kept];
    forall j | 0 <= j < |hash'|
      ensures BucketIndexed(src, hash'[j], j, |hash'|, 0)
    {
      assert BucketIndexed(src, hash[j], j, |hash|, 0);
    }
  }

  // ---------------------------------------------------------------- which blocks are entered

  ghost predicate HasBlock(src: Bytes, b: nat) {
    b * RABIN_WINDOW + RABIN_WINDOW < |src|
  }

  /** The entry for block `b`: the 16 bytes after the first of them. */
  ghost function BlockEntry(src: Bytes, b: nat): IndexEntry
    requires HasBlock(src, b)
  {
    var data := b * RABIN_WINDOW;
    IndexEntry(data + RABIN_WINDOW, Fingerprint(src[data + 1..data + RABIN_WINDOW + 1]))
  }

  /** Of the blocks from `lo` on, `b` is the lowest of its run of equal fingerprints. */
  ghost predicate RunHead(src: Bytes, lo: nat, b: nat)
    requires HasBlock(src, b)
  {
    lo <= b && (b == lo || BlockEntry(src, b - 1).val != BlockEntry(src, b).val)
  }

  ghost predicate IsHead(src: Bytes, lo: nat, hi: nat, e: IndexEntry) {
    exists b: nat :: b < hi && HasBlock(src, b) && RunHead(src, lo, b) && e == BlockEntry(src, b)
  }

  /** The buckets hold exactly the entries of the run heads among the blocks from `lo` up to `hi`. */
  ghost predicate HoldsHeads(src: Bytes, hash: seq<seq<IndexEntry>>, lo: nat, hi: nat) {
    && hash != []
    && (forall e :: IsHead(src, lo, hi, e) ==> e in hash[Slot(e.val, |hash|)])
    && (forall i, k :: 0 <= i < |hash| && 0 <= k < |hash[i]| ==>
          IsHead(src, lo, hi, hash[i][k]) && Slot(hash[i][k].val, |hash|) == i)
  }

  /** Going one block down, a head stays one unless it is the old lowest block with the new one's fingerprint. */
  lemma HeadsMove(src: Bytes, lo: nat, hi: nat, e: IndexEntry)
    requires HasBlock(src, lo) && lo < hi
    ensures IsHead(src, lo, hi, e) <==>
      || e == BlockEntry(src, lo)
      || (IsHead(src, lo + 1, hi, e) && !(e.ptr == (lo + 2) * RABIN_WINDOW && e.val == BlockEntry(src, lo).val))
  {
    hide Fingerprint;
    if IsHead(src, lo, hi, e) {
      var b: nat :| b < hi && HasBlock(src, b) && RunHead(src, lo, b) && e == BlockEntry(src, b);
      assert b == lo || RunHead(src, lo + 1, b);
    }
    if IsHead(src, lo + 1, hi, e) && !(e.ptr == (lo + 2) * RABIN_WINDOW && e.val == BlockEntry(src, lo).val) {
      var b: nat :| b < hi && HasBlock(src, b) && RunHead(src, lo + 1, b) && e == BlockEntry(src, b);
      assert RunHead(src, lo, b);
    }
    if e == BlockEntry(src, lo) {
      assert RunHead(src, lo, lo);
    }
  }

  lemma NoHeads(src: Bytes, hash: seq<seq<IndexEntry>>, hi: nat)
    requires hash != [] && forall i :: 0 <= i < |hash| ==> hash[i] == []
    ensures HoldsHeads(src, hash, hi, hi)
  {
  }

  lemma HeadsPush(src: Bytes, hash: seq<seq<IndexEntry>>, lo: nat, hi: nat)
    requires HoldsHeads(src, hash, lo + 1, hi) && HasBlock(src, lo) && lo < hi
    requires lo + 1 < hi ==> HasBlock(src, lo + 1) && BlockEntry(src, lo + 1).val != BlockEntry(src, lo).val
    ensures
      var e := BlockEntry(src, lo);
      HoldsHeads(src, hash[Slot(e.val, |hash|) := [e] + hash[Slot(e.val, |hash|)]], lo, hi)
  {
    hide Fingerprint, Slot, IsHead;
    var e := BlockEntry(src, lo);
    var s := Slot(e.val, |hash|);
    var hash' := hash[s := [e] + hash[s]];
    forall x
      ensures IsHead(src, lo, hi, x) ==> x in hash'[Slot(x.val, |hash'|)]
      ensures x == e || IsHead(src, lo + 1, hi, x) ==> IsHead(src, lo, hi, x)
    {
      HeadsMove(src, lo, hi, x);
      if IsHead(src, lo + 1, hi, x) && x.ptr == (lo + 2) * RABIN_WINDOW { HeadAt(src, lo + 1, hi, x, lo + 1); }
    }
  }

  lemma HeadAt(src: Bytes, lo: nat, hi: nat, e: IndexEntry, b: nat)
    requires IsHead(src, lo, hi, e) && e.ptr == (b + 1) * RABIN_WINDOW
    ensures b < hi && HasBlock(src, b) && e == BlockEntry(src, b)
  {
    hide Fingerprint;
  }

  lemma HeadsLower(src: Bytes, hash: seq<seq<IndexEntry>>, lo: nat, hi: nat)
    requires HoldsHeads(src, hash, lo + 1, hi) && HasBlock(src, lo) && lo + 1 < hi
    requires HasBlock(src, lo + 1) && BlockEntry(src, lo + 1).val == BlockEntry(src, lo).val
    requires
      var bucket := hash[Slot(BlockEntry(src, lo).val, |hash|)];
      Ascending(bucket) && bucket != [] && bucket[0] == BlockEntry(src, lo + 1)
    ensures
      var e := BlockEntry(src, lo);
      HoldsHeads(src, hash[Slot(e.val, |hash|) := [e] + hash[Slot(e.val, |hash|)][1..]], lo, hi)
  {
    hide Fingerprint, Slot, IsHead;
    var e, was := BlockEntry(src, lo), BlockEntry(src, lo + 1);
    var s := Slot(e.val, |hash|);
    var hash' := hash[s := [e] + hash[s][1..]];
    assert hash[s] == [was] + hash[s][1..];
    forall x
      ensures IsHead(src, lo, hi, x) ==> x in hash'[Slot(x.val, |hash'|)]
      ensures x == e || (IsHead(src, lo + 1, hi, x) && x.ptr != was.ptr) ==> IsHead(src, lo, hi, x)
    {
      HeadsMove(src, lo, hi, x);
      if IsHead(src, lo + 1, hi, x) && x.ptr == was.ptr { HeadAt(src, lo + 1, hi, x, lo + 1); }
    }
    forall i, k | 0 <= i < |hash'| && 0 <= k < |hash'[i]|
      ensures IsHead(src, lo, hi, hash'[i][k]) && Slot(hash'[i][k].val, |hash'|) == i
    {
      var x := hash'[i][k];
      if i == s && k > 0 {
        assert x == hash[s][k] && hash[s][0].ptr < hash[s][k].ptr;
      } else if i != s && x.ptr == was.ptr {
        assert IsHead(src, lo + 1, hi, hash[i][k]);
        HeadAt(src, lo + 1, hi, x, lo + 1);
        assert false;
      }
    }
  }

  /** The fingerprint of the 16 bytes after position `data`. */
  method BlockFingerprint(src: Bytes, data: nat) returns (val: bv32)
    requires data + RABIN_WINDOW < |src|
    ensures val == Fingerprint(src[data + 1..data + RABIN_WINDOW + 1]) && val != 0xffff_ffff
  {
    hide Push;
    val := 0;
    ghost var w := src[data + 1..data + RABIN_WINDOW + 1];
    for i := 1 to RABIN_WINDOW + 1
      invariant val == Fingerprint(w[..i - 1])
    {
      val := Push(val, src[data + i]);
      assert w[i - 1] == src[data + i] && w[..i][..i - 1] == w[..i - 1];
    }
    assert w[..RABIN_WINDOW] == w;
    FingerprintFits(w);
  }

  /** The entry made last, if any: it is that of block `lo` and heads the bucket of its fingerprint. */
  ghost predicate LastEntry(src: Bytes, hash: seq<seq<IndexEntry>>, lo: nat, hi: nat, prev: bv32) {
    && hash != []
    && if lo == hi then prev == 0xffff_ffff
       else
        && HasBlock(src, lo) && prev == BlockEntry(src, lo).val
        && hash[Slot(prev, |hash|)] != [] && hash[Slot(prev, |hash|)][0] == BlockEntry(src, lo)
  }

  /** With the blocks from `lo` up to `hi` entered. */
  ghost predicate Entered(src: Bytes, hash: seq<seq<IndexEntry>>, lo: nat, hi: nat, prev: bv32) {
    && lo <= hi && LastEntry(src, hash, lo, hi, prev) && HoldsHeads(src, hash, lo, hi)
    && Indexed(src, hash, lo * RABIN_WINDOW + if lo == hi then 1 else RABIN_WINDOW)
  }

  lemma BucketOf(src: Bytes, hash: seq<seq<IndexEntry>>, i: nat, from: nat)
    requires Indexed(src, hash, from) && i < |hash|
    ensures BucketIndexed(src, hash[i], i, |hash|, from)
  {
  }

  lemma EnteredPush(src: Bytes, hash: seq<seq<IndexEntry>>, lo: nat, hi: nat, prev: bv32)
    requires lo < hi && Entered(src, hash, lo + 1, hi, prev) && HasBlock(src, lo) && BlockEntry(src, lo).val != prev
    ensures
      var e := BlockEntry(src, lo);
      Entered(src, hash[Slot(e.val, |hash|) := [e] + hash[Slot(e.val, |hash|)]], lo, hi, e.val)
  {
    hide Fingerprint, Slot, HoldsHeads, Indexed;
    HeadsPush(src, hash, lo, hi);
    AddBlock(src, hash, (lo + 1) * RABIN_WINDOW + if lo + 1 == hi then 1 else RABIN_WINDOW, BlockEntry(src, lo));
  }

  lemma EnteredLower(src: Bytes, hash: seq<seq<IndexEntry>>, lo: nat, hi: nat, prev: bv32)
    requires lo < hi && Entered(src, hash, lo + 1, hi, prev) && HasBlock(src, lo) && BlockEntry(src, lo).val == prev
    requires prev != 0xffff_ffff
    ensures
      var e := BlockEntry(src, lo);
      hash[Slot(e.val, |hash|)] != []
      && Entered(src, hash[Slot(e.val, |hash|) := [e] + hash[Slot(e.val, |hash|)][1..]], lo, hi, e.val)
  {
    hide Fingerprint, Slot, HoldsHeads, Indexed;
    var s := Slot(prev, |hash|);
    BucketOf(src, hash, s, (lo + 1) * RABIN_WINDOW + RABIN_WINDOW);
    HeadsLower(src, hash, lo, hi);
    LowerBlock(src, hash, (lo + 1) * RABIN_WINDOW + RABIN_WINDOW, BlockEntry(src, lo));
  }

  /** Enters one block: lowers the last entry if the fingerprint repeats, else pushes a new one. */
  method EnterBlock(src: Bytes, hash: array<seq<IndexEntry>>, data: nat, prev: bv32, ghost lo: nat, ghost hi: nat)
    returns (val: bv32)
    requires lo < hi && data == lo * RABIN_WINDOW && HasBlock(src, lo)
    requires Entered(src, hash[..], lo + 1, hi, prev)
    modifies hash
    ensures val == BlockEntry(src, lo).val && Entered(src, hash[..], lo, hi, val)
    ensures Total(hash[..]) == old(Total(hash[..])) + if val == prev then 0 else 1
  {
    hide HoldsHeads, Indexed, Slot, Fingerprint;
    val := BlockFingerprint(src, data);
    var e := IndexEntry(data + RABIN_WINDOW, val);
    ghost var h := hash[..];
    var i := Slot(val, hash.Length);
    if val == prev {
      EnteredLower(src, h, lo, hi, prev);
      TotalUpdate(h, i, [e] + h[i][1..]);
      hash[i] := [e] + hash[i][1..];
      assert hash[..] == h[i := [e] + h[i][1..]];
    } else {
      EnteredPush(src, h, lo, hi, prev);
      TotalUpdate(h, i, [e] + h[i]);
      hash[i] := [e] + hash[i];
      assert hash[..] == h[i := [e] + h[i]];
    }
  }

  /** Enters every whole block, from the last to the first. */
  method Populate(src: Bytes, blocks: nat, hash: array<seq<IndexEntry>>) returns (entries: nat)
    requires blocks * RABIN_WINDOW < |src| && hash.Length > 0 && forall i :: 0 <= i < hash.Length ==> hash[i] == []
    modifies hash
    ensures Indexed(src, hash[..], 0) && HoldsHeads(src, hash[..], 0, blocks) && Total(hash[..]) == entries
  {
    hide Indexed, HoldsHeads, Slot, BlockEntry;
    entries := blocks;
    var prev: bv32 := 0xffff_ffff;
    TotalOfEmpty(hash[..]);
    EmptyIndexed(src, hash[..], blocks * RABIN_WINDOW + 1);
    NoHeads(src, hash[..], blocks);
    var data := blocks * RABIN_WINDOW - RABIN_WINDOW;
    ghost var left: nat := blocks;
    while data >= 0
      invariant data == left * RABIN_WINDOW - RABIN_WINDOW && left <= blocks
      invariant Entered(src, hash[..], left, blocks, prev)
      invariant entries == Total(hash[..]) + left
      decreases left
    {
      var val := EnterBlock(src, hash, data, prev, left - 1, blocks);
      if val == prev {
        entries := entries - 1;
      }
      prev := val;
      left := left - 1;
      data := data - RABIN_WINDOW;
    }
    assert left == 0;
    LowerFrom(src, hash[..], if blocks == 0 then 1 else RABIN_WINDOW, 0);
  }

  lemma EmptyIndexed(src: Bytes, hash: seq<seq<IndexEntry>>, from: nat)
    requires forall i :: 0 <= i < |hash| ==> hash[i] == []
    ensures Indexed(src, hash, from)
  {
  }

  /** Small buckets are as they were, and oversized ones have exactly the limit, spread evenly. */
  ghost predicate Culled(full: seq<seq<IndexEntry>>, hash: seq<seq<IndexEntry>>) {
    && |hash| == |full|
    && forall i :: 0 <= i < |full| ==>
      if |full[i]| <= 64 then hash[i] == full[i] else |hash[i]| == 64 && Thinned(hash[i], full[i])
  }

  /** Cuts every oversized bucket down to the limit. */
  method Cull(src: Bytes, hash: array<seq<IndexEntry>>, entries: nat) returns (left: nat)
    requires Indexed(src, hash[..], 0) && Total(hash[..]) == entries
    modifies hash
    ensures Indexed(src, hash[..], 0) && Total(hash[..]) == left
    ensures Culled(old(hash[..]), hash[..])
  {
    hide Indexed, Thinned;
    left := entries;
    for i := 0 to hash.Length
      invariant Indexed(src, hash[..], 0) && Total(hash[..]) == left
      invariant forall j :: i <= j < hash.Length ==> hash[j] == old(hash[j])
      invariant forall j :: 0 <= j < i ==>
        if old(|hash[j]|) <= HASH_LIMIT then hash[j] == old(hash[j])
        else |hash[j]| == HASH_LIMIT && Thinned(hash[j], old(hash[j]))
    {
      if |hash[i]| <= HASH_LIMIT {
        continue;
      }
      ghost var h := hash[..];
      TotalAtLeast(h, i);
      left := left - (|hash[i]| - HASH_LIMIT);
      var kept := CullBucket(hash[i]);
      CullKeepsIndexed(src, h, i, kept);
      TotalUpdate(h, i, kept);
      hash[i] := kept;
      assert hash[..] == h[i := kept];
    }
  }

  lemma TotalAtLeast(hash: seq<seq<IndexEntry>>, i: nat)
    requires i < |hash|
    ensures Total(hash) >= |hash[i]|
  {
    TotalUpdate(hash, i, []);
  }

  ghost predicate FitsEntries(i: nat, hsize: nat, entries: nat) {
    && 4 <= i <= 31 && hsize == Pow2(i) && (hsize >= entries / 4 || i == 31)
    && (i == 4 || Pow2(i - 1) < entries / 4)
  }

  /** The number of buckets: a power of two of at least a quarter of the entries, within 2^4..2^31. */
  method HashSize(entries: nat) returns (hsize: nat, i: nat)
    ensures FitsEntries(i, hsize, entries)
  {
    i, hsize := 4, Pow2(4);
    while hsize < entries / 4 && i < 31
      invariant 4 <= i <= 31 && hsize == Pow2(i)
      invariant i == 4 || Pow2(i - 1) < entries / 4
    {
      i, hsize := i + 1, 2 * hsize;
    }
  }

  /** How many blocks of a source are indexed: all, up to the last offset that fits 32 bits. */
  function Blocks(buf: Bytes): nat
    requires buf != []
  {
    if |buf| >= 0xffff_ffff then 0xffff_fffe / RABIN_WINDOW else (|buf| - 1) / RABIN_WINDOW
  }

  /** The index of a source.  Before culling, in `full`, the buckets hold the lowest block of each run of blocks
      with equal fingerprints; what is left are ascending buckets of at most HASH_LIMIT true entries. */
  method CreateDeltaIndex(buf: Bytes) returns (r: Option<Index>, ghost full: seq<seq<IndexEntry>>)
    ensures r.None? <==> buf == []
    ensures r.Some? ==> Indexed(buf, full, 0) && HoldsHeads(buf, full, 0, Blocks(buf)) && Culled(full, r.value.hash)
    ensures r.Some? ==> exists i :: FitsEntries(i, |full|, Blocks(buf))
    ensures r.Some? ==> r.value.src == buf && r.value.Inside() && Indexed(buf, r.value.hash, 0)
    ensures r.Some? ==> forall i :: 0 <= i < |r.value.hash| ==>
      Ascending(r.value.hash[i]) && |r.value.hash[i]| <= 64
  {
    hide Thinned, Indexed, LiesAt, HoldsHeads;
    full := [];
    if buf == [] {
      return None, full;
    }
    var entries := (|buf| - 1) / RABIN_WINDOW;
    if |buf| >= 0xffff_ffff {
      entries := 0xffff_fffe / RABIN_WINDOW;
    }
    var hsize, bits := HashSize(entries);
    PowPositive(bits);
    var hash := new seq<IndexEntry>[hsize](_ => []);
    entries := Populate(buf, entries, hash);
    full := hash[..];
    entries := Cull(buf, hash, entries);
    var packed := Pack(hash);
    assert |packed| == entries;
    IndexedInside(buf, hash[..]);
    r := Some(Index(buf, hash[..]));
  }

  lemma PowPositive(i: nat)
    ensures Pow2(i) > 0
  {
  }

  lemma IndexedInside(src: Bytes, hash: seq<seq<IndexEntry>>)
    requires Indexed(src, hash, 0)
    ensures forall i :: 0 <= i < |hash| ==> Ascending(hash[i])
    ensures forall i, k :: 0 <= i < |hash| && 0 <= k < |hash[i]| ==> hash[i][k].ptr <= |src|
  {
    forall i | 0 <= i < |hash|
      ensures Ascending(hash[i]) && forall k :: 0 <= k < |hash[i]| ==> hash[i][k].ptr <= |src|
    {
      assert BucketIndexed(src, hash[i], i, |hash|, 0);
    }
  }

  /** A bucket lies at `at` in the packed index. */
  ghost predicate LiesAt(packed: seq<IndexEntry>, at: nat, bucket: seq<IndexEntry>) {
    at + |bucket| <= |packed| && packed[at..at + |bucket|] == bucket
  }

  lemma StillLies(packed: seq<IndexEntry>, at: nat, bucket: seq<IndexEntry>, more: seq<IndexEntry>)
    requires LiesAt(packed, at, bucket)
    ensures LiesAt(packed + more, at, bucket)
  {
    assert (packed + more)[at..at + |bucket|] == packed[at..at + |bucket|];
  }

  lemma LastLies(packed: seq<IndexEntry>, bucket: seq<IndexEntry>)
    ensures LiesAt(packed + bucket, |packed|, bucket)
  {
  }

  /** The buckets end to end. */
  method Pack(hash: array<seq<IndexEntry>>) returns (packed: seq<IndexEntry>)
    ensures |packed| == Total(hash[..])
    ensures forall i :: 0 <= i < hash.Length ==> LiesAt(packed, Total(hash[..i]), hash[i])
  {
    hide LiesAt;
    packed := [];
    for i := 0 to hash.Length
      invariant |packed| == Total(hash[..i])
      invariant forall j :: 0 <= j < i ==> LiesAt(packed, Total(hash[..j]), hash[j])
    {
      assert hash[..i + 1][..i] == hash[..i];
      forall j | 0 <= j < i
        ensures LiesAt(packed + hash[i], Total(hash[..j]), hash[j])
      {
        StillLies(packed, Total(hash[..j]), hash[j], hash[i]);
      }
      LastLies(packed, hash[i]);
      packed := packed + hash[i];
    }
    assert hash[..hash.Length] == hash[..];
  }
}
