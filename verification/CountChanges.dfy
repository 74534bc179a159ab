/** How much of one file another contains, by a merge of two sorted chunk tables (diffcore-delta.c:125-232). */
module CountChanges {
  import opened Common
  import opened SpanSpec
  import opened SpanTable
  import opened SpanHash

  /** A sorted table: each hash value once, ascending, and empty slots, at least one, at the end. */
  ghost predicate IsTable(d: seq<Span>) {
    && Ordered(d) && Unique(d)
    && |d| > 0 && d[|d| - 1].cnt == 0
    && forall i :: 0 <= i < |d| && d[i].cnt > 0 ==> d[i].hashval < HASHBASE
  }

  lemma SortedIsTable(d: seq<Span>, s: seq<Span>)
    requires Sound(d) && Rearranged(d, s) && Ordered(s) && Unique(s) && Used(d) < |d|
    ensures IsTable(s)
  {
    hide Count, Total, FilledTo, Used;
    var e := SomeEmpty(s);
    assert NotAfter(s[e], s[|s| - 1]) || e == |s| - 1;
    forall i | 0 <= i < |s| && s[i].cnt > 0
      ensures s[i].hashval < HASHBASE
    {
      assert s[i] in s;
    }
  }

  /** The table of a file's chunks. */
  method HashChars(buf: seq<Byte>, isText: bool) returns (hash: Top)
    ensures fresh(hash) && IsTable(hash.data[..]) && CountsSame(Spans(isText, buf, ZERO), hash.data[..])
  {
    hide Mix, HashVal, Count, Total, Used, Sound, Spans, Pow2, InitialFree;
    hash := new Top();
    ghost var done: seq<Span> := [];
    ghost var acc := ZERO;
    var accum1: nat, accum2: nat, n: nat, p: nat := 0, 0, 0, 0;
    assert buf[0..] == buf && [] + Spans(isText, buf, ZERO) == Spans(isText, buf, ZERO);
    while p < |buf|
      invariant p <= |buf| && n == acc.n < 64
      invariant accum1 < WORD && accum2 < WORD && acc.sum == accum2 * WORD + accum1
      invariant fresh(hash) && fresh(hash.data) && hash.Valid() && CountsSame(done, hash.data[..])
      invariant Spans(isText, buf, ZERO) == done + Spans(isText, buf[p..], acc)
    {
      var c := buf[p];
      NextByte(isText, buf[p..], acc);
      assert buf[p..][1..] == buf[p + 1..];
      p := p + 1;
      if isText && c == CR && p < |buf| && buf[p] == LF {
        continue;
      }
      MixesWords(acc, accum1, accum2, c);
      acc := Mix(acc, c);
      var old1 := accum1;
      accum1 := accum1 * 128 % WORD + accum2 / 0x200_0000;
      accum2 := accum2 * 128 % WORD + old1 / 0x200_0000;
      accum1 := (accum1 + c) % WORD;
      n := n + 1;
      if n < 64 && c != LF {
        continue;
      }
      HashOfWords(acc, accum1, accum2);
      var hashval := (accum1 + accum2 * 0x61) % WORD % HASHBASE;
      ghost var sp := Span(hashval, n);
      OneMoreSpan(done, sp);
      assert done + ([sp] + Spans(isText, buf[p..], ZERO)) == done + [sp] + Spans(isText, buf[p..], ZERO);
      hash.Add(hashval, n);
      done := done + [sp];
      acc := ZERO;
      n, accum1, accum2 := 0, 0, 0;
    }
    NoByte(isText, buf[p..], acc);
    assert done + [] == done;
    hash.HasRoom();
    ghost var d := hash.data[..];
    UniqueSlots(d);
    SortSlots(hash.data);
    SortedIsTable(d, hash.data[..]);
  }

  lemma UniqueSlots(d: seq<Span>)
    requires Sound(d)
    ensures Unique(d)
  {
  }

  lemma OneMoreSpan(done: seq<Span>, sp: Span)
    ensures CountsMore(done, done + [sp], sp.hashval, sp.cnt)
  {
    assert (done + [sp])[..|done|] == done;
  }

  lemma NoByte(isText: bool, s: seq<Byte>, acc: Acc)
    requires s == []
    ensures Spans(isText, s, acc) == []
  {
  }

  lemma NextByte(isText: bool, s: seq<Byte>, acc: Acc)
    requires s != []
    ensures Spans(isText, s, acc) ==
      if Skipped(isText, s) then Spans(isText, s[1..], acc)
      else if acc.n + 1 < 64 && s[0] != LF then Spans(isText, s[1..], Mix(acc, s[0]))
      else [Span(HashVal(Mix(acc, s[0])), acc.n + 1)] + Spans(isText, s[1..], ZERO)
  {
    hide Mix, HashVal;
  }

  // ---------------------------------------------------------------- the merge

  /** Slots before `i` are below `h`, slots from `i` on are not. */
  ghost predicate At(d: seq<Span>, i: nat, h: nat) {
    i < |d|
    && (forall k :: 0 <= k < i ==> d[k].cnt > 0 && d[k].hashval < h)
    && (forall k :: i <= k < |d| && d[k].cnt > 0 ==> d[k].hashval >= h)
  }

  function Here(s: Span, h: nat): nat {
    if s.cnt > 0 && s.hashval == h then s.cnt else 0
  }

  lemma {:induction false} CountOne(d: seq<Span>, i: nat)
    requires Unique(d) && i < |d| && d[i].cnt > 0
    ensures Count(d, d[i].hashval) == d[i].cnt
  {
    var rest, last := d[..|d| - 1], d[|d| - 1];
    if i == |d| - 1 {
      CountNone(rest, last.hashval);
    } else {
      CountOne(rest, i);
    }
  }

  lemma StepAt(d: seq<Span>, i: nat, h: nat)
    requires IsTable(d) && At(d, i, h)
    ensures Count(d, h) == Here(d[i], h)
    ensures At(d, if Here(d[i], h) > 0 then i + 1 else i, h + 1)
  {
    hide Count;
    if Here(d[i], h) > 0 {
      CountOne(d, i);
      assert forall k :: i < k < |d| ==> NotAfter(d[i], d[k]);
    } else {
      forall k | i <= k < |d| && d[k].cnt > 0
        ensures d[k].hashval != h
      {
        if k > i { assert NotAfter(d[i], d[k]); }
      }
      CountNone(d, h);
    }
  }

  /** Hash values that neither table has change no sum. */
  lemma {:induction false} Skip(src: seq<Span>, dst: seq<Span>, i: nat, j: nat, from: nat, to: nat)
    requires IsTable(src) && IsTable(dst) && At(src, i, from) && At(dst, j, from) && from <= to
    requires (src[i].cnt > 0 ==> src[i].hashval >= to) && (dst[j].cnt > 0 ==> dst[j].hashval >= to)
    ensures Copied(src, dst, to) == Copied(src, dst, from) && Added(src, dst, to) == Added(src, dst, from)
    ensures At(src, i, to) && At(dst, j, to)
  {
    hide Count, IsTable, At;
    if from < to {
      Skip(src, dst, i, j, from, to - 1);
      StepAt(src, i, to - 1);
      StepAt(dst, j, to - 1);
    }
  }

  /** The sums grow by what the two tables have of `h`. */
  lemma Meet(src: seq<Span>, dst: seq<Span>, i: nat, j: nat, from: nat, h: nat)
    requires IsTable(src) && IsTable(dst) && At(src, i, from) && At(dst, j, from) && from <= h
    requires (src[i].cnt > 0 ==> src[i].hashval >= h) && (dst[j].cnt > 0 ==> dst[j].hashval >= h)
    ensures var s, d := Here(src[i], h), Here(dst[j], h);
      && Copied(src, dst, h + 1) == Copied(src, dst, from) + Min(s, d)
      && Added(src, dst, h + 1) == Added(src, dst, from) + (if d > s then d - s else 0)
      && At(src, if s > 0 then i + 1 else i, h + 1) && At(dst, if d > 0 then j + 1 else j, h + 1)
  {
    hide Count, IsTable, At;
    Skip(src, dst, i, j, from, h);
    StepAt(src, i, h);
    StepAt(dst, j, h);
  }

  lemma InTable(d: seq<Span>, i: nat)
    requires IsTable(d) && i < |d| && d[i].cnt > 0
    ensures d[i].hashval < HASHBASE
  {
  }

  /** Merging the tables: per hash value, what both have is copied and what `dst` has more is added.  The empty
      slots at the ends stop both walks. */
  method Merge(src: seq<Span>, dst: seq<Span>) returns (sc: nat, la: nat)
    requires IsTable(src) && IsTable(dst)
    ensures sc == Copied(src, dst, HASHBASE) && la == Added(src, dst, HASHBASE)
  {
    hide IsTable, Copied, Added;
    sc, la := 0, 0;
    var i: nat, j: nat := 0, 0;
    ghost var h: nat := 0;
    NothingYet(src, dst);
    while true
      invariant h <= HASHBASE && At(src, i, h) && At(dst, j, h)
      invariant sc == Copied(src, dst, h) && la == Added(src, dst, h)
      decreases |src| - i
    {
      if src[i].cnt == 0 {
        break;
      }
      InTable(src, i);
      while dst[j].cnt != 0
        invariant h <= HASHBASE && At(src, i, h) && At(dst, j, h)
        invariant sc == Copied(src, dst, h) && la == Added(src, dst, h)
        decreases |dst| - j
      {
        if dst[j].hashval >= src[i].hashval {
          break;
        }
        Meet(src, dst, i, j, h, dst[j].hashval);
        la := la + dst[j].cnt;
        h := dst[j].hashval + 1;
        j := j + 1;
      }
      Meet(src, dst, i, j, h, src[i].hashval);
      h := src[i].hashval + 1;
      var srcCnt: nat, dstCnt: nat := src[i].cnt, 0;
      if dst[j].cnt != 0 && dst[j].hashval == src[i].hashval {
        dstCnt := dst[j].cnt;
        j := j + 1;
      }
      if srcCnt < dstCnt {
        la := la + dstCnt - srcCnt;
        sc := sc + srcCnt;
      } else {
        sc := sc + dstCnt;
      }
      i := i + 1;
    }
    while dst[j].cnt != 0
      invariant h <= HASHBASE && At(src, i, h) && At(dst, j, h) && src[i].cnt == 0
      invariant sc == Copied(src, dst, h) && la == Added(src, dst, h)
      decreases |dst| - j
    {
      InTable(dst, j);
      Meet(src, dst, i, j, h, dst[j].hashval);
      la := la + dst[j].cnt;
      h := dst[j].hashval + 1;
      j := j + 1;
    }
    Skip(src, dst, i, j, h, HASHBASE);
  }

  lemma NothingYet(src: seq<Span>, dst: seq<Span>)
    requires IsTable(src) && IsTable(dst)
    ensures At(src, 0, 0) && At(dst, 0, 0) && Copied(src, dst, 0) == 0 && Added(src, dst, 0) == 0
  {
  }

  /** Comparing two files.  `copied` and `added` are determined by the chunks alone, and together they are all
      the bytes of the new file's chunks. */
  method DiffcoreCountChanges(src: seq<Byte>, srcIsText: bool, dst: seq<Byte>, dstIsText: bool)
    returns (copied: nat, added: nat)
    ensures copied == Copied(Spans(srcIsText, src, ZERO), Spans(dstIsText, dst, ZERO), HASHBASE)
    ensures added == Added(Spans(srcIsText, src, ZERO), Spans(dstIsText, dst, ZERO), HASHBASE)
    ensures copied + added + CrsSkipped(dstIsText, dst) + LeftOver(dstIsText, dst, 0) == |dst|
    ensures copied + CrsSkipped(srcIsText, src) + LeftOver(srcIsText, src, 0) <= |src|
    ensures src == dst && srcIsText == dstIsText ==> added == 0
  {
    hide IsTable, Copied, Added, Spans, Count, LeftOver, CrsSkipped;
    var srcCount := HashChars(src, srcIsText);
    ghost var s := srcCount.data[..];
    var dstCount := HashChars(dst, dstIsText);
    copied, added := Merge(srcCount.data[..], dstCount.data[..]);
    ghost var a, b := Spans(srcIsText, src, ZERO), Spans(dstIsText, dst, ZERO);
    SameCounts(a, b, srcCount.data[..], dstCount.data[..], HASHBASE);
    Conserved(srcIsText, src, a, dstIsText, dst, b);
    NothingAdded(a, HASHBASE);
  }

  /** Copied and added bytes account for the new file up to skipped CRs and the unfinished last chunk; copied
      bytes do not exceed the old one. */
  lemma Conserved(srcIsText: bool, src: seq<Byte>, a: seq<Span>, dstIsText: bool, dst: seq<Byte>, b: seq<Span>)
    requires a == Spans(srcIsText, src, ZERO) && b == Spans(dstIsText, dst, ZERO)
    ensures Copied(a, b, HASHBASE) + Added(a, b, HASHBASE) + CrsSkipped(dstIsText, dst) + LeftOver(dstIsText, dst, 0)
         == |dst|
    ensures Copied(a, b, HASHBASE) + CrsSkipped(srcIsText, src) + LeftOver(srcIsText, src, 0) <= |src|
  {
    hide Copied, Added, Spans, Count, LeftOver, CrsSkipped, SumBelow;
    CopiedPlusAdded(a, b, HASHBASE);
    HashesInRange(srcIsText, src, ZERO);
    HashesInRange(dstIsText, dst, ZERO);
    SumIsTotal(a, HASHBASE);
    SumIsTotal(b, HASHBASE);
    SpansAccount(srcIsText, src, ZERO);
    SpansAccount(dstIsText, dst, ZERO);
  }
}
