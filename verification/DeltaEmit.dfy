/** What the encoder has written so far, and how each of its steps extends it (diff-delta.c:398-462). */
module DeltaEmit {
  import opened Common
  import opened Rabin
  import opened DeltaFormat
  import opened DeltaIndex

  function SizeHeader(src: Bytes, trg: Bytes): Bytes {
    EncodeSize(|src|) + EncodeSize(|trg|)
  }

  /** Room taken by a pending insert: its count slot and its literals. */
  function Pending(inscnt: nat): nat {
    if inscnt == 0 then 0 else inscnt + 1
  }

  /** `w` is the header, closed operations rebuilding the target up to the pending insert, a slot for
      its count, and its literals, which end at `data`. */
  ghost predicate Emitted(src: Bytes, trg: Bytes, w: Bytes, data: nat, inscnt: nat) {
    && inscnt <= data <= |trg|
    && |SizeHeader(src, trg)| + Pending(inscnt) <= |w|
    && w[..|SizeHeader(src, trg)|] == SizeHeader(src, trg)
    && Replay(src, w[|SizeHeader(src, trg)|..|w| - Pending(inscnt)]) == Some(trg[..data - inscnt])
    && w[|w| - inscnt..] == trg[data - inscnt..data]
  }

  lemma HeaderEmitted(src: Bytes, trg: Bytes)
    ensures Emitted(src, trg, SizeHeader(src, trg), 0, 0)
  {
    var h := SizeHeader(src, trg);
    assert h[..|h|] == h && h[|h|..|h|] == [] && trg[..0] == [];
  }

  /** A literal, opening a count slot (of any content) when no insert is pending. */
  lemma EmitLiteral(src: Bytes, trg: Bytes, w: Bytes, data: nat, inscnt: nat, slot: byte)
    requires Emitted(src, trg, w, data, inscnt) && data < |trg|
    ensures Emitted(src, trg, (if inscnt == 0 then w + [slot] else w) + [trg[data]], data + 1, inscnt + 1)
  {
    hide Replay, SizeHeader;
    var h := |SizeHeader(src, trg)|;
    var w' := (if inscnt == 0 then w + [slot] else w) + [trg[data]];
    assert w'[..h] == w[..h];
    assert w'[h..|w'| - (inscnt + 2)] == w[h..|w| - Pending(inscnt)];
    assert w'[|w'| - (inscnt + 1)..] == w[|w| - inscnt..] + [trg[data]];
    assert trg[data - inscnt..data + 1] == trg[data - inscnt..data] + [trg[data]];
  }

  /** Filling in the count closes the insert. */
  lemma EmitClose(src: Bytes, trg: Bytes, w: Bytes, data: nat, inscnt: nat)
    requires Emitted(src, trg, w, data, inscnt) && 0 < inscnt < 0x80
    ensures Emitted(src, trg, w[|w| - inscnt - 1 := inscnt], data, 0)
  {
    hide Replay, SizeHeader;
    var h := |SizeHeader(src, trg)|;
    var e := |w| - inscnt - 1;
    var w' := w[e := inscnt];
    ReplayInsert(src, w[h..e], trg[data - inscnt..data]);
    assert w'[..h] == w[..h];
    assert w'[h..|w'|] == w[h..e] + ([inscnt] + w[|w| - inscnt..]);
    assert trg[..data] == trg[..data - inscnt] + trg[data - inscnt..data];
    assert w'[|w'|..] == [] && trg[data..data] == [];
  }

  /** Taking one literal back, and the slot with the last one. */
  lemma TakeBack(src: Bytes, trg: Bytes, w: Bytes, data: nat, inscnt: nat)
    requires Emitted(src, trg, w, data, inscnt) && inscnt > 0
    ensures Emitted(src, trg, w[..|w| - (if inscnt == 1 then 2 else 1)], data - 1, inscnt - 1)
  {
    hide Replay, SizeHeader;
    var h := |SizeHeader(src, trg)|;
    var w' := w[..|w| - (if inscnt == 1 then 2 else 1)];
    assert w'[..h] == w[..h];
    assert w'[h..|w'| - Pending(inscnt - 1)] == w[h..|w| - Pending(inscnt)];
    assert w'[|w'| - (inscnt - 1)..] == w[|w| - inscnt..|w| - 1];
    assert w[|w| - inscnt..|w| - 1] == w[|w| - inscnt..][..inscnt - 1];
    assert trg[data - inscnt..data - 1] == trg[data - inscnt..data][..inscnt - 1];
  }

  /** A copy operation for a true match. */
  lemma EmitCopy(src: Bytes, trg: Bytes, w: Bytes, data: nat, moff: nat, size: nat)
    requires Emitted(src, trg, w, data, 0) && |src| < MAX_UINT32
    requires Matches(src, moff, trg, data, size) && 0 < size <= 0x10000
    ensures Emitted(src, trg, w + EncodeCopy(moff, size), data + size, 0)
  {
    hide Replay, SizeHeader, EncodeCopy;
    var h := |SizeHeader(src, trg)|;
    var op := EncodeCopy(moff, size);
    var w' := w + op;
    assert w[h..|w| - 0] == w[h..];
    ReplayCopy(src, w[h..], moff, size);
    assert w'[..h] == w[..h];
    assert w'[h..|w'| - 0] == w[h..] + op;
    assert trg[..data + size] == trg[..data] + trg[data..data + size];
  }

  /** With the whole target emitted, the delta rebuilds it. */
  lemma EmittedPatches(src: Bytes, trg: Bytes, w: Bytes)
    requires Emitted(src, trg, w, |trg|, 0) && trg != []
    ensures Patch(src, w) == Some(trg)
  {
    hide Replay, Patch, EncodeSize;
    var h := |SizeHeader(src, trg)|;
    assert trg[..|trg|] == trg;
    assert w == w[..h] + w[h..|w|];
    PatchWhole(src, w[h..|w|], trg);
  }

  // ---------------------------------------------------------------- matches move with the cursor

  lemma MatchBack(src: Bytes, moff: nat, trg: Bytes, data: nat, msize: nat)
    requires Matches(src, moff, trg, data, msize) && moff > 0 && data > 0 && src[moff - 1] == trg[data - 1]
    ensures Matches(src, moff - 1, trg, data - 1, msize + 1)
  {
    assert src[moff - 1..moff + msize] == [src[moff - 1]] + src[moff..moff + msize];
    assert trg[data - 1..data + msize] == [trg[data - 1]] + trg[data..data + msize];
  }

  lemma MatchSplits(src: Bytes, moff: nat, trg: Bytes, data: nat, msize: nat, k: nat)
    requires Matches(src, moff, trg, data, msize) && k <= msize
    ensures Matches(src, moff, trg, data, k) && Matches(src, moff + k, trg, data + k, msize - k)
  {
    assert src[moff..moff + k] == src[moff..moff + msize][..k];
    assert trg[data..data + k] == trg[data..data + msize][..k];
    assert src[moff + k..moff + msize] == src[moff..moff + msize][k..];
    assert trg[data + k..data + msize] == trg[data..data + msize][k..];
  }

  lemma {:induction false} ArgLength(x: nat, n: nat)
    ensures |EncodeArg(x, n)| <= n
  {
    if n > 0 { ArgLength(x / 0x100, n - 1); }
  }

  lemma CopyLength(off: nat, size: nat)
    requires off < MAX_UINT32
    ensures 1 <= |EncodeCopy(off, size)| <= 7
  {
    ArgLength(off, 4);
    ArgLength(size, 2);
  }
}
