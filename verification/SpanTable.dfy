/** The open-addressing table of chunk counts (diffcore-delta.c:23-107). */
module SpanTable {
  import opened Common
  import opened SpanSpec

  const INITIAL_HASH_SIZE := 9

  /** A slot with a zero count is empty. */
  const EMPTY := Span(0, 0)

  /** How many slots may be filled before the table grows. */
  function InitialFree(log2: nat): int
    requires log2 > 0
  {
    Pow2(log2) * (log2 - 3) / log2
  }

  /** One more than the room still leaves a slot empty, and fits the next size; the largest size has room
      for every hash value. */
  lemma Sizes(log2: nat)
    requires INITIAL_HASH_SIZE <= log2 <= 17
    ensures 0 < InitialFree(log2) < Pow2(log2) - 1
    ensures log2 < 17 ==> InitialFree(log2) < InitialFree(log2 + 1)
    ensures InitialFree(17) > HASHBASE
  {
    assert Pow2(9) == 512;
    assert Pow2(12) == 4096;
    assert Pow2(15) == 32768;
    assert InitialFree(17) == 131072 * 14 / 17;
  }

  // ---------------------------------------------------------------- probing

  /** Where probing for a hash value starts; the number of slots is a power of two, so masking is a remainder. */
  function Home(hashval: nat, lim: nat): (h: nat)
    requires lim > 0
    ensures h < lim
  {
    hashval % lim
  }

  /** How many steps probing takes from `home` to slot `i`. */
  function Dist(home: nat, i: nat, lim: nat): nat
    requires home < lim && i < lim
  {
    if i >= home then i - home else i + lim - home
  }

  /** Probing for `hashval` meets only filled slots before slot `i`. */
  ghost predicate FilledTo(d: seq<Span>, hashval: nat, i: nat)
    requires i < |d|
  {
    var home := Home(hashval, |d|);
    forall j :: 0 <= j < |d| && Dist(home, j, |d|) < Dist(home, i, |d|) ==> d[j].cnt > 0
  }

  /** Every chunk count can be found by probing, and there is one per hash value. */
  ghost predicate Sound(d: seq<Span>) {
    && (forall i :: 0 <= i < |d| && d[i].cnt > 0 ==> FilledTo(d, d[i].hashval, i) && d[i].hashval < HASHBASE)
    && Unique(d)
  }

  ghost predicate Unique(d: seq<Span>) {
    forall i, j :: 0 <= i < j < |d| && d[i].cnt > 0 && d[j].cnt > 0 ==> d[i].hashval != d[j].hashval
  }

  ghost predicate Absent(d: seq<Span>, hashval: nat) {
    forall i :: 0 <= i < |d| && d[i].cnt > 0 ==> d[i].hashval != hashval
  }

  function Used(d: seq<Span>): nat {
    if d == [] then 0 else Used(d[..|d| - 1]) + if d[|d| - 1].cnt > 0 then 1 else 0
  }

  function One(b: bool): nat {
    if b then 1 else 0
  }

  lemma {:induction false} SetSlot(d: seq<Span>, i: nat, x: Span, v: nat)
    requires i < |d|
    ensures Used(d[i := x]) + One(d[i].cnt > 0) == Used(d) + One(x.cnt > 0)
    ensures Count(d[i := x], v) + (if d[i].hashval == v then d[i].cnt else 0)
         == Count(d, v) + if x.hashval == v then x.cnt else 0
    ensures Total(d[i := x]) + d[i].cnt == Total(d) + x.cnt
  {
    var rest := d[..|d| - 1];
    if i == |d| - 1 {
      assert d[i := x][..i] == rest;
    } else {
      assert d[i := x][..|d| - 1] == rest[i := x];
      SetSlot(rest, i, x, v);
    }
  }

  lemma {:induction false} SomeEmpty(d: seq<Span>) returns (e: nat)
    requires Used(d) < |d|
    ensures e < |d| && d[e].cnt == 0
  {
    e := |d| - 1;
    if d[e].cnt > 0 { e := SomeEmpty(d[..|d| - 1]); }
  }

  lemma {:induction false} CountNone(d: seq<Span>, v: nat)
    requires Absent(d, v)
    ensures Count(d, v) == 0
  {
    if d != [] {
      var rest := d[..|d| - 1];
      assert forall i :: 0 <= i < |rest| ==> rest[i] == d[i];
      CountNone(rest, v);
    }
  }

  lemma {:induction false} CountSome(d: seq<Span>, i: nat)
    requires i < |d|
    ensures Count(d, d[i].hashval) >= d[i].cnt
  {
    if i < |d| - 1 { CountSome(d[..|d| - 1], i); }
  }

  lemma {:induction false} AllEmpty(d: seq<Span>, v: nat)
    requires forall i :: 0 <= i < |d| ==> d[i].cnt == 0
    ensures Used(d) == 0 && Count(d, v) == 0 && Total(d) == 0
  {
    if d != [] { AllEmpty(d[..|d| - 1], v); }
  }

  // ---------------------------------------------------------------- at most one slot per hash value

  ghost function Hashes(d: seq<Span>): set<nat> {
    set i | 0 <= i < |d| && d[i].cnt > 0 :: d[i].hashval
  }

  lemma {:induction false} HashesCounted(d: seq<Span>)
    requires Unique(d)
    ensures |Hashes(d)| == Used(d)
  {
    if d == [] {
      assert Hashes(d) == {};
    } else {
      var rest, last := d[..|d| - 1], d[|d| - 1];
      HashesCounted(rest);
      assert d == rest + [last];
      OneMoreHash(rest, last);
      if last.cnt > 0 {
        assert last.hashval !in Hashes(rest);
      }
    }
  }

  lemma OneMoreHash(d: seq<Span>, last: Span)
    ensures Hashes(d + [last]) == Hashes(d) + if last.cnt > 0 then {last.hashval} else {}
  {
    var all := d + [last];
    assert all[|d|] == last && forall i :: 0 <= i < |d| ==> all[i] == d[i];
    forall x | x in Hashes(d)
      ensures x in Hashes(all)
    {
      var i :| 0 <= i < |d| && d[i].cnt > 0 && d[i].hashval == x;
      assert all[i].hashval == x;
    }
  }

  lemma {:induction false} InitialSegment(n: nat) returns (s: set<nat>)
    ensures |s| == n && forall x: nat :: x in s <==> x < n
  {
    s := {};
    if n > 0 {
      s := InitialSegment(n - 1);
      s := s + {n - 1};
    }
  }

  lemma SubsetFits(a: set<nat>, b: set<nat>)
    requires a <= b
    ensures |a| <= |b|
  {
    assert b == a + (b - a);
  }

  /** A sound table fills no more slots than there are hash values. */
  lemma UsedBounded(d: seq<Span>)
    requires Sound(d)
    ensures Used(d) <= HASHBASE
  {
    hide FilledTo, Used;
    HashesCounted(d);
    var all := InitialSegment(HASHBASE);
    assert Hashes(d) <= all;
    SubsetFits(Hashes(d), all);
  }

  // ---------------------------------------------------------------- filling a slot

  lemma DistInjective(home: nat, i: nat, j: nat, lim: nat)
    requires home < lim && i < lim && j < lim && Dist(home, i, lim) == Dist(home, j, lim)
    ensures i == j
  {
  }

  /** Meeting an empty slot before a match means the hash value is not in the table. */
  lemma StoppedEmpty(d: seq<Span>, hashval: nat, i: nat)
    requires Sound(d) && i < |d| && d[i].cnt == 0
    requires var home := Home(hashval, |d|);
      forall j :: 0 <= j < |d| && Dist(home, j, |d|) < Dist(home, i, |d|) ==> d[j].hashval != hashval
    ensures Absent(d, hashval)
  {
    hide Dist, Home;
    var home := Home(hashval, |d|);
    forall k | 0 <= k < |d| && d[k].cnt > 0
      ensures d[k].hashval != hashval
    {
      if d[k].hashval == hashval {
        assert FilledTo(d, hashval, k);
        assert !(Dist(home, i, |d|) < Dist(home, k, |d|));
        if Dist(home, i, |d|) == Dist(home, k, |d|) { DistInjective(home, i, k, |d|); }
      }
    }
  }

  lemma FillKeepsSound(d: seq<Span>, i: nat, x: Span)
    requires Sound(d) && i < |d| && d[i].cnt == 0 && x.cnt > 0 && x.hashval < HASHBASE
    requires FilledTo(d, x.hashval, i) && Absent(d, x.hashval)
    ensures Sound(d[i := x])
  {
    hide Dist, Home;
    var d' := d[i := x];
    forall k | 0 <= k < |d'| && d'[k].cnt > 0
      ensures FilledTo(d', d'[k].hashval, k) && d'[k].hashval < HASHBASE
    {
      assert k != i ==> d'[k] == d[k] && FilledTo(d, d[k].hashval, k);
    }
  }

  lemma RaiseKeepsSound(d: seq<Span>, i: nat, cnt: nat)
    requires Sound(d) && i < |d| && d[i].cnt > 0
    ensures Sound(d[i := Span(d[i].hashval, d[i].cnt + cnt)])
  {
    hide Dist, Home;
    var d' := d[i := Span(d[i].hashval, d[i].cnt + cnt)];
    forall k | 0 <= k < |d'| && d'[k].cnt > 0
      ensures FilledTo(d', d'[k].hashval, k) && d'[k].hashval < HASHBASE
    {
      assert FilledTo(d, d[k].hashval, k);
    }
  }

  /** From the home slot on, around the end, to an empty slot, or with `merge` to one with this hash value. */
  method Probe(data: array<Span>, hashval: nat, merge: bool) returns (i: nat)
    requires 0 < data.Length && Used(data[..]) < data.Length
    ensures i < data.Length && (data[i].cnt == 0 || (merge && data[i].hashval == hashval))
    ensures FilledTo(data[..], hashval, i)
    ensures var home := Home(hashval, data.Length);
      merge ==> forall j :: 0 <= j < data.Length && Dist(home, j, data.Length) < Dist(home, i, data.Length) ==>
        data[j].hashval != hashval
  {
    hide Used;
    ghost var e := SomeEmpty(data[..]);
    var lim := data.Length;
    ghost var home := Home(hashval, lim);
    var bucket: nat := hashval % lim;
    i := bucket;
    ghost var steps: nat := 0;
    while true
      invariant bucket < lim && steps == Dist(home, bucket, lim) <= Dist(home, e, lim)
      invariant forall j :: 0 <= j < lim && Dist(home, j, lim) < steps ==>
        data[j].cnt > 0 && (merge ==> data[j].hashval != hashval)
      decreases lim - steps
    {
      i := bucket;
      bucket := bucket + 1;
      if data[i].cnt == 0 || (merge && data[i].hashval == hashval) {
        return;
      }
      assert forall j :: 0 <= j < lim && Dist(home, j, lim) == steps ==> j == i;
      if lim <= bucket {
        bucket := 0;
      }
      steps := steps + 1;
    }
  }
}
