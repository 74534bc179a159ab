/** Looking up the best match for a target position in a delta index (diff-delta.c:362-396). */
module DeltaIndex {
  import opened Rabin
  import opened DeltaFormat

  /** A source block: where it ends (its last indexed byte) and its fingerprint. */
  datatype IndexEntry = IndexEntry(ptr: nat, val: bv32)

  /** The packed index, bucket by bucket.  The number of buckets is a power of two, so masking a
      fingerprint with one less is the remainder. */
  datatype Index = Index(src: Bytes, hash: seq<seq<IndexEntry>>) {
    function Bucket(val: bv32): seq<IndexEntry>
      requires hash != []
    {
      hash[Slot(val, |hash|)]
    }

    /** Every entry points inside the source (or just past it). */
    ghost predicate Inside() {
      hash != [] && forall i, k :: 0 <= i < |hash| && 0 <= k < |hash[i]| ==> hash[i][k].ptr <= |src|
    }
  }

  function Slot(val: bv32, hsize: nat): nat
    requires hsize > 0
    ensures Slot(val, hsize) < hsize
  {
    val as int % hsize
  }

  const GOOD_ENOUGH := 4096

  ghost predicate Ascending(bucket: seq<IndexEntry>) {
    forall i, j :: 0 <= i < j < |bucket| ==> bucket[i].ptr < bucket[j].ptr
  }

  ghost predicate AllInside(src: Bytes, bucket: seq<IndexEntry>) {
    forall k :: 0 <= k < |bucket| ==> bucket[k].ptr <= |src|
  }

  /** How far source and target agree from the given positions. */
  ghost function Agree(src: Bytes, ptr: nat, trg: Bytes, data: nat): nat
    decreases |src| - ptr
  {
    if ptr < |src| && data < |trg| && src[ptr] == trg[data] then 1 + Agree(src, ptr + 1, trg, data + 1) else 0
  }

  ghost predicate Matches(src: Bytes, moff: nat, trg: Bytes, data: nat, msize: nat) {
    moff + msize <= |src| && data + msize <= |trg| && src[moff..moff + msize] == trg[data..data + msize]
  }

  lemma {:induction false} AgreeMatches(src: Bytes, ptr: nat, trg: Bytes, data: nat)
    requires ptr <= |src| && data <= |trg|
    ensures Matches(src, ptr, trg, data, Agree(src, ptr, trg, data))
    decreases |src| - ptr
  {
    var n := Agree(src, ptr, trg, data);
    if n > 0 {
      AgreeMatches(src, ptr + 1, trg, data + 1);
      assert src[ptr..ptr + n] == [src[ptr]] + src[ptr + 1..ptr + n];
      assert trg[data..data + n] == [trg[data]] + trg[data + 1..data + n];
    }
  }

  lemma {:induction false} AgreeCounts(src: Bytes, ptr: nat, trg: Bytes, data: nat, n: nat)
    requires Matches(src, ptr, trg, data, n)
    requires ptr + n == |src| || data + n == |trg| || src[ptr + n] != trg[data + n]
    ensures Agree(src, ptr, trg, data) == n
    decreases n
  {
    if n > 0 {
      assert src[ptr..ptr + n][0] == trg[data..data + n][0];
      assert src[ptr + 1..ptr + n] == src[ptr..ptr + n][1..];
      assert trg[data + 1..data + n] == trg[data..data + n][1..];
      AgreeCounts(src, ptr + 1, trg, data + 1, n - 1);
    }
  }

  lemma MatchGrows(src: Bytes, ptr: nat, trg: Bytes, data: nat, n: nat)
    requires Matches(src, ptr, trg, data, n) && ptr + n < |src| && data + n < |trg| && src[ptr + n] == trg[data + n]
    ensures Matches(src, ptr, trg, data, n + 1)
  {
    assert src[ptr..ptr + n + 1] == src[ptr..ptr + n] + [src[ptr + n]];
    assert trg[data..data + n + 1] == trg[data..data + n] + [trg[data + n]];
  }

  /** The first longest match among all entries with the wanted fingerprint, looking no further once
      one is good enough; starts from the match already held. */
  ghost function Scan(bucket: seq<IndexEntry>, val: bv32, src: Bytes, trg: Bytes, data: nat, moff: nat,
                      msize: nat): (nat, nat)
  {
    if bucket == [] then (moff, msize)
    else
      var e := bucket[0];
      var n := Agree(src, e.ptr, trg, data);
      if e.val != val || n <= msize then Scan(bucket[1..], val, src, trg, data, moff, msize)
      else if n >= 4096 then (e.ptr, n)
      else Scan(bucket[1..], val, src, trg, data, e.ptr, n)
  }

  /** Entries with too little room left before an end cannot beat the match in hand. */
  lemma {:induction false} ScanHopeless(bucket: seq<IndexEntry>, val: bv32, src: Bytes, trg: Bytes, data: nat,
                                        moff: nat, msize: nat)
    requires AllInside(src, bucket) && data <= |trg|
    requires forall k :: 0 <= k < |bucket| ==> |src| - bucket[k].ptr <= msize || |trg| - data <= msize
    ensures Scan(bucket, val, src, trg, data, moff, msize) == (moff, msize)
  {
    if bucket != [] {
      AgreeMatches(src, bucket[0].ptr, trg, data);
      ScanHopeless(bucket[1..], val, src, trg, data, moff, msize);
    }
  }

  /** The match loop.  Whatever the order of the bucket the match is a true one; in an ascending bucket
      the early break on `refSize <= msize` loses nothing against a full scan. */
  method FindMatch(bucket: seq<IndexEntry>, val: bv32, src: Bytes, trg: Bytes, data: nat, moff0: nat, msize0: nat)
    returns (moff: nat, msize: nat)
    requires AllInside(src, bucket) && data <= |trg| && Matches(src, moff0, trg, data, msize0)
    requires msize0 < GOOD_ENOUGH
    ensures msize >= msize0 && Matches(src, moff, trg, data, msize)
    ensures Ascending(bucket) ==> (moff, msize) == Scan(bucket, val, src, trg, data, moff0, msize0)
  {
    hide Agree, Matches;
    moff, msize := moff0, msize0;
    ghost var want := Scan(bucket, val, src, trg, data, moff0, msize0);
    assert bucket[0..] == bucket;
    for k := 0 to |bucket|
      invariant msize0 <= msize < GOOD_ENOUGH && Matches(src, moff, trg, data, msize)
      invariant Scan(bucket[k..], val, src, trg, data, moff, msize) == want
    {
      var e := bucket[k];
      assert bucket[k..][1..] == bucket[k + 1..] && bucket[k..][0] == e;
      var refSize := |src| - e.ptr;
      if e.val != val {
        continue;
      }
      if refSize > |trg| - data {
        refSize := |trg| - data;
      }
      if refSize <= msize {
        if Ascending(bucket) {
          ScanHopeless(bucket[k..], val, src, trg, data, moff, msize);
        }
        break;
      }
      var n := Compare(src, e.ptr, trg, data, refSize);
      if msize < n {
        moff, msize := e.ptr, n;
        if msize >= GOOD_ENOUGH {
          break;
        }
      }
    }
  }

  method Compare(src: Bytes, ptr: nat, trg: Bytes, data: nat, refSize: nat) returns (n: nat)
    requires ptr + refSize <= |src| && data + refSize <= |trg|
    requires ptr + refSize == |src| || data + refSize == |trg|
    ensures n == Agree(src, ptr, trg, data) && Matches(src, ptr, trg, data, n)
  {
    n := 0;
    while n < refSize && trg[data + n] == src[ptr + n]
      invariant n <= refSize
      invariant Matches(src, ptr, trg, data, n)
    {
      MatchGrows(src, ptr, trg, data, n);
      n := n + 1;
    }
    AgreeCounts(src, ptr, trg, data, n);
  }
}
