/** The output buffer of the encoder: its sizes in 32-bit arithmetic, and when they run out
    (diff-delta.c:311-330, 464-476). */
module DeltaRoom {
  import opened Rabin
  import opened DeltaFormat

  const MAX_OP_SIZE := 5 + 5 + 1 + RABIN_WINDOW + 7
  const FIRST_SIZE := 8192

  /** The last size from which growing does not wrap around. */
  const LAST_SIZE := 1_570_824_171

  /** Cut to just above a size limit. */
  function Capped(outsize: nat, maxSize: nat): nat {
    if maxSize > 0 && outsize >= maxSize then maxSize + MAX_OP_SIZE + 1 else outsize
  }

  /** The buffer size after growth, in 32-bit arithmetic. */
  function Grown(outsize: nat, maxSize: nat): nat {
    Capped(outsize * 3 % MAX_UINT32 / 2, maxSize)
  }

  /** The buffer size after growing `k` times, without a limit and without wrapping around. */
  function GrowAt(k: nat): nat {
    if k == 0 then FIRST_SIZE else GrowAt(k - 1) * 3 / 2
  }

  /** The limit is at least the first size that would wrap around, or there is none. */
  predicate Boundless(maxSize: nat) {
    maxSize == 0 || maxSize > LAST_SIZE
  }

  /** One of the sizes a buffer goes through, below the limit; or cut to the limit. */
  ghost predicate Sized(outsize: nat, maxSize: nat) {
    || (!Boundless(maxSize) && outsize == maxSize + MAX_OP_SIZE + 1)
    || ((maxSize == 0 || outsize < maxSize) && exists k :: 0 <= k <= 30 && outsize == GrowAt(k))
  }

  lemma NextSize(k: nat, size: nat)
    requires size == GrowAt(k)
    ensures GrowAt(k + 1) == size * 3 / 2
  {
  }

  lemma GrowthEnds()
    ensures GrowAt(30) == LAST_SIZE && GrowAt(29) * 3 < MAX_UINT32 <= GrowAt(30) * 3
  {
    assert GrowAt(0) == FIRST_SIZE;
    hide GrowAt;
    NextSize(0, 8_192); NextSize(1, 12_288); NextSize(2, 18_432); NextSize(3, 27_648); NextSize(4, 41_472);
    NextSize(5, 62_208); NextSize(6, 93_312); NextSize(7, 139_968); NextSize(8, 209_952); NextSize(9, 314_928);
    NextSize(10, 472_392);
    NextSize(11, 708_588); NextSize(12, 1_062_882); NextSize(13, 1_594_323); NextSize(14, 2_391_484);
    NextSize(15, 3_587_226); NextSize(16, 5_380_839); NextSize(17, 8_071_258); NextSize(18, 12_106_887);
    NextSize(19, 18_160_330); NextSize(20, 27_240_495); NextSize(21, 40_860_742); NextSize(22, 61_291_113);
    NextSize(23, 91_936_669); NextSize(24, 137_905_003); NextSize(25, 206_857_504);
    NextSize(26, 310_286_256); NextSize(27, 465_429_384); NextSize(28, 698_144_076);
    NextSize(29, 1_047_216_114);
  }

  lemma {:induction false} GrowthAscends(j: nat, k: nat)
    requires j <= k
    ensures FIRST_SIZE <= GrowAt(j) <= GrowAt(k)
    decreases k
  {
    if j < k {
      GrowthAscends(j, k - 1);
    } else if k > 0 {
      GrowthAscends(k - 1, k - 1);
    }
  }

  lemma SizedBounds(outsize: nat, maxSize: nat)
    requires Sized(outsize, maxSize)
    ensures outsize <= LAST_SIZE + MAX_OP_SIZE + 1 && (Boundless(maxSize) ==> FIRST_SIZE <= outsize <= LAST_SIZE)
    ensures outsize > MAX_OP_SIZE + 1
  {
    hide GrowAt;
    GrowthEnds();
    if k :| 0 <= k <= 30 && outsize == GrowAt(k) { GrowthAscends(k, 30); }
  }

  lemma FirstSized(maxSize: nat)
    ensures Sized(Capped(FIRST_SIZE, maxSize), maxSize)
  {
    assert GrowAt(0) == FIRST_SIZE;
  }

  /** Growing a nearly full buffer makes room for another operation, unless it has the last size. */
  lemma GrowthSuffices(outsize: nat, outpos: nat, maxSize: nat)
    requires Sized(outsize, maxSize) && outpos + 2 <= outsize <= outpos + MAX_OP_SIZE
    requires maxSize > 0 ==> outpos <= maxSize
    ensures outsize != LAST_SIZE ==>
      Grown(outsize, maxSize) > outpos + MAX_OP_SIZE && Sized(Grown(outsize, maxSize), maxSize)
    ensures outsize == LAST_SIZE ==> Boundless(maxSize) && Grown(outsize, maxSize) < outpos
  {
    hide GrowAt;
    GrowthEnds();
    var k :| 0 <= k <= 30 && outsize == GrowAt(k);
    GrowthAscends(k, k);
    if k < 30 {
      GrowthAscends(k, 29);
      NextSize(k, outsize);
      GrowthAscends(k + 1, 30);
    }
  }

  // ---------------------------------------------------------------- output without matches

  /** Where the output ends with all of the first `data` target bytes literals: 127 take one count byte. */
  function LiteralEnd(srcSize: nat, trgSize: nat, data: nat): nat {
    |EncodeSize(srcSize)| + |EncodeSize(trgSize)| + data + (data + 0x7e) / 0x7f
  }

  /** The smallest target that overruns when nothing matches. */
  const OVERRUN_SIZE := 1_558_552_067

  lemma SizeLengthAtLeast(n: nat)
    requires n >= 0x1000_0000
    ensures |EncodeSize(n)| >= 5
  {
    var a := n / 0x80;
    var b := a / 0x80;
    var c := b / 0x80;
    var d := c / 0x80;
    assert |EncodeSize(d)| >= 1 && |EncodeSize(c)| >= 2 && |EncodeSize(b)| >= 3 && |EncodeSize(a)| >= 4;
  }

  /** From exactly this size on the literals reach the point where the last buffer has to grow. */
  lemma OverrunsFrom(srcSize: nat, trgSize: nat)
    requires srcSize < 0x80 && trgSize < MAX_UINT32
    ensures LiteralEnd(srcSize, trgSize, trgSize) >= LAST_SIZE - MAX_OP_SIZE <==> trgSize >= OVERRUN_SIZE
  {
    hide EncodeSize;
    SizeLength(trgSize);
    ShortSize(srcSize);
    if trgSize >= OVERRUN_SIZE {
      SizeLengthAtLeast(trgSize);
    }
  }

  lemma ShortSize(n: nat)
    requires n < 0x80
    ensures |EncodeSize(n)| == 1
  {
  }
}
