/** One turn of the encoder in numbers, and what a file's delta against itself comes to (diff-delta.c:370-462). */
module DeltaStep {
  import opened Rabin
  import opened DeltaFormat
  import opened DeltaIndex

  /** Where the encoder stands. */
  datatype Cursor = Cursor(data: nat, inscnt: nat, moff: nat, msize: nat, outpos: nat)

  /** One turn.  A match of `n` < 4 bytes is not used: one more literal.  A longer one at `m` is extended back over `x`
      pending literals and copied, up to 64 KB of it, by at most seven bytes; all literals given back take their count
      with them. */
  ghost predicate Advances(data: nat, inscnt: nat, outpos: nat, m: nat, n: nat, x: nat, c: Cursor) {
    if n < 4 then
      && c.data == data + 1 && c.msize == 0 && c.inscnt == (inscnt + 1) % 0x7f
      && c.outpos == outpos + if inscnt == 0 then 2 else 1
    else
      var size := if n + x < 0x10000 then n + x else 0x10000;
      && x <= inscnt && x <= m && x <= data
      && c.data == data - x + size && c.moff == m - x + size && c.msize == n + x - size && c.inscnt == 0
      && c.outpos <= outpos - x - (if 0 < x == inscnt then 1 else 0) + 7
  }

  /** Going back `x` places uses up the literals or the source, or stops at a difference. */
  ghost predicate BackTo(src: Bytes, trg: Bytes, data: nat, inscnt: nat, m: nat, x: nat) {
    && x <= inscnt && x <= m <= |src| && x <= data <= |trg|
    && (x == inscnt || x == m || (x < data && src[m - x - 1] != trg[data - x - 1]))
  }

  lemma AdvancesBy(src: Bytes, trg: Bytes, c: Cursor, x: nat, c1: Cursor, c': Cursor)
    requires c.msize >= 4 && c.inscnt < 0x7f && BackTo(src, trg, c.data, c.inscnt, c.moff, x)
    requires c1.data + x == c.data && c1.moff + x == c.moff && c1.msize == c.msize + x && c1.inscnt == 0
    requires c1.outpos + x + (if 0 < x == c.inscnt then 1 else 0) == c.outpos
    requires c'.msize == if c1.msize < 0x10000 then 0 else c1.msize - 0x10000
    requires c'.data == c1.data + (c1.msize - c'.msize) && c'.moff == c1.moff + (c1.msize - c'.msize)
    requires c'.outpos <= c1.outpos + 7 && c'.inscnt == 0
    ensures Advances(c.data, c.inscnt, c.outpos, c.moff, c.msize, x, c') && c'.data > c.data
    ensures c'.outpos <= c.outpos + 7
  {
  }

  // ---------------------------------------------------------------- a file against itself

  /** The index of `src` in which the first block's entry heads its bucket. */
  ghost predicate FirstBlockLeads(index: Index, src: Bytes) {
    && index.src == src && index.hash != [] && |src| >= 17
    && (forall i :: 0 <= i < |index.hash| ==> Ascending(index.hash[i]) && AllInside(src, index.hash[i]))
    && var v := Fingerprint(src[1..17]);
    && index.Bucket(v) != [] && index.Bucket(v)[0] == IndexEntry(16, v)
  }

  /** What the delta of a file of `n` bytes against itself takes at most. */
  function SelfBound(n: nat): nat {
    10 + 7 * (n / 0x10000 + 1) + 4
  }

  /** The stations of the encoder on its way: behind the first window; behind some 64 KB copies, with the rest of the
      file as its match; among the literals of a rest of less than four bytes; or at the end. */
  ghost predicate SelfAt(n: nat, hdr: nat, c: Cursor) {
    || AtFirst(n, hdr, c)
    || (c.inscnt == 0 && c.data % 0x10000 == 0 && 0 < c.data < n && c.moff == c.data && c.msize == n - c.data
        && c.outpos <= hdr + 7 * (c.data / 0x10000))
    || AtRest(n, hdr, c)
    || (c.data == n && c.outpos <= hdr + 7 * (n / 0x10000 + 1) + 4)
  }

  predicate AtFirst(n: nat, hdr: nat, c: Cursor) {
    c == Cursor(16, 16, 0, 0, hdr + 17) && n >= 20
  }

  predicate AtRest(n: nat, hdr: nat, c: Cursor) {
    var k := n / 0x10000 * 0x10000;
    && k < c.data < n < k + 4 && c.msize == 0 && c.inscnt == c.data - k
    && c.outpos <= hdr + 7 * (n / 0x10000) + 1 + c.inscnt
  }

  /** The match in hand after searching at a station. */
  ghost predicate SelfFound(n: nat, hdr: nat, c: Cursor, m: nat, len: nat) {
    if AtFirst(n, hdr, c) then m == 16 && len == n - 16
    else if AtRest(n, hdr, c) then len < 4
    else m == c.moff && len == c.msize
  }

  /** From station to station. */
  lemma SelfNext(src: Bytes, hdr: nat, c: Cursor, m: nat, len: nat, x: nat, c': Cursor)
    requires SelfAt(|src|, hdr, c) && c.data < |src| && SelfFound(|src|, hdr, c, m, len)
    requires Advances(c.data, c.inscnt, c.outpos, m, len, x, c')
    requires len >= 4 ==> BackTo(src, src, c.data, c.inscnt, m, x)
    ensures SelfAt(|src|, hdr, c') && !AtFirst(|src|, hdr, c') && c'.outpos <= hdr + 7 * (|src| / 0x10000 + 1) + 4
  {
    var n := |src|;
    if AtFirst(n, hdr, c) {
      assert x == 16;
    } else if AtRest(n, hdr, c) {
    } else {
      assert len >= 4 ==> x == 0;
    }
  }

  /** At the first window the first block is found, and nothing longer. */
  lemma FirstFound(index: Index, src: Bytes)
    requires FirstBlockLeads(index, src) && |src| >= 20
    ensures
      var v := Fingerprint(src[1..17]);
      Scan(index.Bucket(v), v, src, src, 16, 0, 0) == (16, |src| - 16)
  {
    hide Fingerprint, Slot;
    var v := Fingerprint(src[1..17]);
    var bucket := index.Bucket(v);
    AgreeCounts(src, 16, src, 16, |src| - 16);
    forall k | 0 <= k < |bucket[1..]|
      ensures |src| - bucket[1..][k].ptr <= |src| - 16
    {
      assert bucket[0].ptr < bucket[k + 1].ptr;
    }
    ScanHopeless(bucket[1..], v, src, src, 16, 16, |src| - 16);
  }

  /** A match that reaches the end of the target is kept. */
  lemma RestKept(index: Index, src: Bytes, val: bv32, data: nat, moff: nat)
    requires FirstBlockLeads(index, src) && data <= |src|
    ensures Scan(index.Bucket(val), val, src, src, data, moff, |src| - data) == (moff, |src| - data)
  {
    hide Fingerprint;
    ScanHopeless(index.Bucket(val), val, src, src, data, moff, |src| - data);
  }

  /** No match is longer than the rest of the target. */
  lemma {:induction false} ScanFits(bucket: seq<IndexEntry>, val: bv32, src: Bytes, trg: Bytes, data: nat, moff: nat,
                                    msize: nat)
    requires AllInside(src, bucket) && data <= |trg| && msize <= |trg| - data
    ensures Scan(bucket, val, src, trg, data, moff, msize).1 <= |trg| - data
  {
    if bucket != [] {
      var e := bucket[0];
      AgreeMatches(src, e.ptr, trg, data);
      var n := Agree(src, e.ptr, trg, data);
      ScanFits(bucket[1..], val, src, trg, data, moff, msize);
      ScanFits(bucket[1..], val, src, trg, data, e.ptr, n);
    }
  }
}
