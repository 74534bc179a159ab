/** Counting a file's chunks, and comparing two files by their counts (diffcore-delta.c:49-232). */
module SpanHash {
  import opened Common
  import opened SpanSpec
  import opened SpanTable

  /** `d'` counts what `d` does, and `cnt` more under `hashval`. */
  ghost predicate CountsMore(d: seq<Span>, d': seq<Span>, hashval: nat, cnt: nat) {
    && (forall v: nat :: Count(d', v) == Count(d, v) + if v == hashval then cnt else 0)
    && Total(d') == Total(d) + cnt
  }

  ghost predicate CountsSame(d: seq<Span>, d': seq<Span>) {
    (forall v: nat :: Count(d', v) == Count(d, v)) && Total(d') == Total(d)
  }

  lemma SetCounts(d: seq<Span>, i: nat, x: Span)
    requires i < |d| && (d[i].cnt == 0 || (d[i].hashval == x.hashval && d[i].cnt <= x.cnt))
    ensures CountsMore(d, d[i := x], x.hashval, x.cnt - d[i].cnt)
    ensures Used(d[i := x]) + One(d[i].cnt > 0) == Used(d) + One(x.cnt > 0)
  {
    hide Count, Used, Total, One;
    SetSlot(d, i, x, 0);
    forall v: nat
      ensures Count(d[i := x], v) == Count(d, v) + if v == x.hashval then x.cnt - d[i].cnt else 0
    {
      SetSlot(d, i, x, v);
    }
  }

  /** Putting a count that is not in the table into the first empty slot. */
  method Place(data: array<Span>, x: Span)
    requires 0 < data.Length && Used(data[..]) < data.Length
    requires Sound(data[..]) && Absent(data[..], x.hashval) && x.cnt > 0 && x.hashval < HASHBASE
    modifies data
    ensures Sound(data[..]) && CountsMore(old(data[..]), data[..], x.hashval, x.cnt)
    ensures Used(data[..]) == old(Used(data[..])) + 1
  {
    hide Used, Sound, CountsMore, FilledTo, Home, Dist;
    var i := Probe(data, x.hashval, false);
    FillKeepsSound(data[..], i, x);
    SetCounts(data[..], i, x);
    ghost var before := data[..];
    data[i] := x;
    assert data[..] == before[i := x];
  }

  /** What was moved so far leaves the next count absent. */
  lemma NextIsAbsent(orig: seq<Span>, i: nat, nd: seq<Span>)
    requires Unique(orig) && i < |orig| && orig[i].cnt > 0
    requires forall v: nat :: Count(nd, v) == Count(orig[..i], v)
    ensures Absent(nd, orig[i].hashval)
  {
    hide Count;
    var h := orig[i].hashval;
    assert forall k :: 0 <= k < i ==> orig[..i][k] == orig[k];
    CountNone(orig[..i], h);
    forall k | 0 <= k < |nd| && nd[k].cnt > 0
      ensures nd[k].hashval != h
    {
      CountSome(nd, k);
    }
  }

  class Top {
    var allocLog2: nat
    var free: int
    var data: array<Span>

    /** The table is sound and `free` counts the room left. */
    ghost predicate Filled()
      reads this, data
    {
      && INITIAL_HASH_SIZE <= allocLog2 <= 17 && data.Length == Pow2(allocLog2) && Sound(data[..])
      && Used(data[..]) == InitialFree(allocLog2) - free
    }

    ghost predicate Valid()
      reads this, data
    {
      Filled() && free >= 0
    }

    constructor ()
      ensures Valid() && fresh(data) && CountsSame([], data[..])
    {
      allocLog2 := INITIAL_HASH_SIZE;
      free := InitialFree(INITIAL_HASH_SIZE);
      data := new Span[Pow2(INITIAL_HASH_SIZE)](_ => EMPTY);
      new;
      Sizes(INITIAL_HASH_SIZE);
      EmptyCounts(data[..]);
    }

    /** There is always an empty slot. */
    lemma HasRoom()
      requires Filled() && free >= -1
      ensures 0 < data.Length && Used(data[..]) < data.Length
    {
      Sizes(allocLog2);
    }

    /** Doubling the table.  It never has to go beyond 2^17 slots. */
    method Rehash()
      requires Filled() && free == -1
      modifies this
      ensures Valid() && fresh(data) && CountsSame(old(data[..]), data[..])
    {
      hide Used, Sound, FilledTo, Pow2, InitialFree, Count, Total;
      Sizes(allocLog2);
      UsedBounded(data[..]);
      SoundIsUnique(data[..]);
      DoublePow(allocLog2);
      var osz := data.Length;
      var sz := osz * 2;
      var bigger := new Span[sz](_ => EMPTY);
      EmptyCounts(bigger[..]);
      assert data[..0] == [];
      for i := 0 to osz
        invariant data == old(data) && allocLog2 == old(allocLog2) && free == -1 && data[..] == old(data[..])
        invariant Sound(bigger[..]) && Used(bigger[..]) == Used(data[..i]) && CountsSame(data[..i], bigger[..])
      {
        var o := data[i];
        NextSlot(data[..], i);
        if o.cnt != 0 {
          NextIsAbsent(data[..], i, bigger[..]);
          UsedPart(data[..], i);
          HashOf(data[..], i);
          Place(bigger, o);
        }
      }
      assert data[..osz] == data[..];
      allocLog2 := allocLog2 + 1;
      free := InitialFree(allocLog2) - (InitialFree(allocLog2 - 1) + 1);
      data := bigger;
    }

    /** Counting a chunk. */
    method Add(hashval: nat, cnt: nat)
      requires Valid() && cnt > 0 && hashval < HASHBASE
      modifies this, data
      ensures Valid() && CountsMore(old(data[..]), data[..], hashval, cnt)
      ensures data == old(data) || fresh(data)
    {
      hide Used, Sound, FilledTo, Pow2, InitialFree, Count, Total, Home, Dist, Absent;
      HasRoom();
      var i := Probe(data, hashval, true);
      ghost var d := data[..];
      if data[i].cnt == 0 {
        StoppedEmpty(d, hashval, i);
        FillKeepsSound(d, i, Span(hashval, cnt));
        SetCounts(d, i, Span(hashval, cnt));
        data[i] := Span(hashval, cnt);
        assert data[..] == d[i := Span(hashval, cnt)];
        free := free - 1;
        if free < 0 {
          Rehash();
        }
      } else {
        RaiseKeepsSound(d, i, cnt);
        SetCounts(d, i, Span(hashval, data[i].cnt + cnt));
        data[i] := Span(hashval, data[i].cnt + cnt);
        assert data[..] == d[i := Span(hashval, d[i].cnt + cnt)];
      }
    }
  }

  lemma EmptyCounts(d: seq<Span>)
    requires forall i :: 0 <= i < |d| ==> d[i].cnt == 0
    ensures Used(d) == 0 && CountsSame([], d) && Sound(d) && Used([]) == 0
  {
    AllEmpty(d, 0);
    forall v: nat
      ensures Count(d, v) == 0
    {
      AllEmpty(d, v);
    }
  }

  lemma DoublePow(n: nat)
    ensures Pow2(n + 1) == 2 * Pow2(n)
  {
  }

  lemma SoundIsUnique(d: seq<Span>)
    requires Sound(d)
    ensures Unique(d)
  {
  }

  lemma HashOf(d: seq<Span>, i: nat)
    requires Sound(d) && i < |d| && d[i].cnt > 0
    ensures d[i].hashval < HASHBASE
  {
  }

  lemma NextSlot(d: seq<Span>, i: nat)
    requires i < |d|
    ensures Used(d[..i + 1]) == Used(d[..i]) + One(d[i].cnt > 0)
    ensures CountsMore(d[..i], d[..i + 1], d[i].hashval, d[i].cnt)
  {
    assert d[..i + 1][..i] == d[..i];
  }

  lemma {:induction false} UsedPart(d: seq<Span>, i: nat)
    requires i < |d|
    ensures Used(d[..i]) <= Used(d) <= |d| && Used(d[..i]) <= i
    decreases |d|
  {
    UsedFits(d);
    UsedFits(d[..i]);
    if i < |d| - 1 {
      assert d[..|d| - 1][..i] == d[..i];
      UsedPart(d[..|d| - 1], i);
    }
  }

  lemma {:induction false} UsedFits(d: seq<Span>)
    ensures Used(d) <= |d|
  {
    if d != [] { UsedFits(d[..|d| - 1]); }
  }

  // ---------------------------------------------------------------- sorting

  /** The order of sorting: by hash value, empty slots last. */
  predicate NotAfter(a: Span, b: Span) {
    if a.cnt == 0 then b.cnt == 0 else b.cnt == 0 || a.hashval <= b.hashval
  }

  ghost predicate Ordered(d: seq<Span>) {
    forall i, j :: 0 <= i < j < |d| ==> NotAfter(d[i], d[j])
  }

  function InsertSpan(d: seq<Span>, x: Span): (r: seq<Span>)
    ensures |r| == |d| + 1
  {
    if d == [] || NotAfter(d[|d| - 1], x) then d + [x]
    else InsertSpan(d[..|d| - 1], x) + [d[|d| - 1]]
  }

  lemma {:induction false} InsertKeeps(d: seq<Span>, x: Span)
    requires Ordered(d)
    ensures forall e :: e in InsertSpan(d, x) <==> e in d || e == x
    ensures Ordered(InsertSpan(d, x))
  {
    var r := InsertSpan(d, x);
    if d == [] || NotAfter(d[|d| - 1], x) {
      assert forall i :: 0 <= i < |d| ==> r[i] == d[i];
    } else {
      var rest, last := d[..|d| - 1], d[|d| - 1];
      assert d == rest + [last];
      InsertKeeps(rest, x);
      var r' := InsertSpan(rest, x);
      forall i | 0 <= i < |r'|
        ensures NotAfter(r'[i], last)
      {
        assert r'[i] in r';
        assert forall k :: 0 <= k < |rest| ==> rest[k] == d[k] && NotAfter(d[k], last);
      }
    }
  }

  lemma {:induction false} InsertCounts(d: seq<Span>, x: Span, v: nat)
    ensures Count(InsertSpan(d, x), v) == Count(d, v) + if x.hashval == v then x.cnt else 0
    ensures Total(InsertSpan(d, x)) == Total(d) + x.cnt && Used(InsertSpan(d, x)) == Used(d) + One(x.cnt > 0)
  {
    var r := InsertSpan(d, x);
    if d == [] || NotAfter(d[|d| - 1], x) {
      assert r[..|r| - 1] == d;
    } else {
      InsertCounts(d[..|d| - 1], x, v);
      assert r[..|r| - 1] == InsertSpan(d[..|d| - 1], x);
    }
  }

  lemma {:induction false} InsertUnique(d: seq<Span>, x: Span)
    requires Ordered(d) && Unique(d) && (x.cnt > 0 ==> Absent(d, x.hashval))
    ensures Unique(InsertSpan(d, x))
  {
    if d != [] && !NotAfter(d[|d| - 1], x) {
      var rest, last := d[..|d| - 1], d[|d| - 1];
      assert d == rest + [last];
      InsertUnique(rest, x);
      InsertKeeps(rest, x);
      var r' := InsertSpan(rest, x);
      forall i | 0 <= i < |r'| && r'[i].cnt > 0 && last.cnt > 0
        ensures r'[i].hashval != last.hashval
      {
        assert r'[i] in r';
        assert Absent(rest, last.hashval);
      }
    }
  }

  /** Slots in another order: the same counts, the same elements. */
  ghost predicate Rearranged(d: seq<Span>, s: seq<Span>) {
    CountsSame(d, s) && Used(d) == Used(s) && |d| == |s| && forall e :: e in s <==> e in d
  }

  lemma InsertRearranges(d: seq<Span>, i: nat, s: seq<Span>)
    requires i < |d| && Rearranged(d[..i], s) && Ordered(s) && Unique(s) && Unique(d)
    ensures Rearranged(d[..i + 1], InsertSpan(s, d[i])) && Ordered(InsertSpan(s, d[i])) && Unique(InsertSpan(s, d[i]))
  {
    hide Count, Used, Total, InsertSpan, Ordered, One;
    NextSlot(d, i);
    InsertKeeps(s, d[i]);
    assert d[..i + 1] == d[..i] + [d[i]];
    forall v: nat
      ensures Count(InsertSpan(s, d[i]), v) == Count(d[..i + 1], v)
    {
      InsertCounts(s, d[i], v);
    }
    InsertCounts(s, d[i], 0);
    forall k | 0 <= k < |s| && s[k].cnt > 0 && d[i].cnt > 0
      ensures s[k].hashval != d[i].hashval
    {
      assert s[k] in s;
    }
    InsertUnique(s, d[i]);
  }

  /** Stands for the library's sort. */
  method SortSlots(data: array<Span>)
    requires Unique(data[..])
    modifies data
    ensures Rearranged(old(data[..]), data[..]) && Ordered(data[..]) && Unique(data[..])
  {
    hide Rearranged, Ordered, Unique;
    ghost var d := data[..];
    var s := [];
    NothingRearranged(d);
    for i := 0 to data.Length
      invariant |s| == i && Rearranged(d[..i], s) && Ordered(s) && Unique(s) && data[..] == d
    {
      InsertRearranges(d, i, s);
      s := InsertSpan(s, data[i]);
    }
    assert d[..data.Length] == d;
    for i := 0 to data.Length
      invariant data[..i] == s[..i]
    {
      data[i] := s[i];
    }
    assert data[..] == s;
  }

  lemma NothingRearranged(d: seq<Span>)
    ensures Rearranged(d[..0], []) && Ordered([]) && Unique([])
  {
  }
}
