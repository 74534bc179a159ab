/** Taking candidates best first: what a destination gets, and what a source is used for (diffcore-rename.c:472-491). */
module RenameFair {
  import opened Common
  import opened RenameSpec
  import opened RenameTables

  /** The candidate's destination is matched with the candidate's source. */
  ghost predicate Took(src: seq<nat>, dst: seq<Dst>, c: Score) {
    0 <= c.dst < |dst| && c.src < |src| && dst[c.dst].pair == Some(src[c.src])
  }

  /** The destination of `o` is matched by a candidate at least as good. */
  ghost predicate DstGot(src: seq<nat>, dst: seq<Dst>, mx: seq<Score>, o: Score) {
    exists c :: c in mx && Took(src, dst, c) && c.dst == o.dst && ScoreCompare(c, o) <= 0
  }

  /** The source of `o` is used by a candidate at least as good. */
  ghost predicate SrcGone(src: seq<nat>, dst: seq<Dst>, mx: seq<Score>, o: Score) {
    o.src < |src| && exists c :: c in mx && Took(src, dst, c) && src[c.src] == src[o.src] && ScoreCompare(c, o) <= 0
  }

  /** Why `o` was not taken, if it was not: its destination had a match before or got one at least as good, or,
      without copies, its source was used before or went to one at least as good. */
  ghost predicate Fair(src: seq<nat>, dst: seq<Dst>, mx: seq<Score>, o: Score, dst0: seq<Dst>, used0: seq<nat>,
                       copies: bool)
  {
    && 0 <= o.dst < |dst0| && o.src < |src| && src[o.src] < |used0|
    && (|| dst0[o.dst].pair.Some?
        || DstGot(src, dst, mx, o)
        || (!copies && (used0[src[o.src]] > 0 || SrcGone(src, dst, mx, o))))
  }

  /** No match is lost. */
  ghost predicate Extends(dst: seq<Dst>, dst': seq<Dst>) {
    |dst'| == |dst| && forall k :: 0 <= k < |dst| && dst[k].pair.Some? ==> dst'[k].pair == dst[k].pair
  }

  lemma StaysFair(src: seq<nat>, dst: seq<Dst>, dst': seq<Dst>, mx: seq<Score>, o: Score, dst0: seq<Dst>,
                  used0: seq<nat>, copies: bool)
    requires Fair(src, dst, mx, o, dst0, used0, copies) && Extends(dst, dst')
    ensures Fair(src, dst', mx, o, dst0, used0, copies)
  {
    hide ScoreCompare;
    if DstGot(src, dst, mx, o) {
      var c :| c in mx && Took(src, dst, c) && c.dst == o.dst && ScoreCompare(c, o) <= 0;
      assert Took(src, dst', c);
    } else if SrcGone(src, dst, mx, o) {
      var c :| c in mx && Took(src, dst, c) && src[c.src] == src[o.src] && ScoreCompare(c, o) <= 0;
      assert Took(src, dst', c);
    }
  }

  /** All that is new since `dst0` and `used0` was taken by the candidates `done`. */
  ghost predicate DoneBy(src: seq<nat>, dst0: seq<Dst>, used0: seq<nat>, dst: seq<Dst>, used: seq<nat>,
                         done: seq<Score>)
  {
    && |dst| == |dst0| && |used| == |used0|
    && (forall d :: 0 <= d < |dst| && dst0[d].pair.None? && dst[d].pair.Some? ==>
          exists c :: c in done && Took(src, dst, c) && c.dst == d)
    && (forall s :: 0 <= s < |used| && used0[s] == 0 && used[s] > 0 ==>
          exists c :: c in done && Took(src, dst, c) && src[c.src] == s)
  }

  lemma SkippedOne(src: seq<nat>, dst0: seq<Dst>, used0: seq<nat>, dst: seq<Dst>, used: seq<nat>, mx: seq<Score>,
                   i: nat)
    requires i < |mx| && DoneBy(src, dst0, used0, dst, used, mx[..i])
    ensures DoneBy(src, dst0, used0, dst, used, mx[..i + 1])
  {
    assert mx[..i + 1] == mx[..i] + [mx[i]];
  }

  /** Taking a candidate. */
  lemma TookOne(src: seq<nat>, dst0: seq<Dst>, used0: seq<nat>, dst: seq<Dst>, used: seq<nat>, mx: seq<Score>, i: nat,
                dst': seq<Dst>, used': seq<nat>)
    requires i < |mx| && DoneBy(src, dst0, used0, dst, used, mx[..i])
    requires var c := mx[i];
      && 0 <= c.dst < |dst| && c.src < |src| && src[c.src] < |used| && dst[c.dst].pair.None?
      && dst' == dst[c.dst := dst[c.dst].(pair := Some(src[c.src]))]
      && used' == used[src[c.src] := used[src[c.src]] + 1]
    ensures Extends(dst, dst') && DoneBy(src, dst0, used0, dst', used', mx[..i + 1])
  {
    var c := mx[i];
    assert mx[..i + 1] == mx[..i] + [c];
    assert Took(src, dst', c) && c in mx[..i + 1];
    forall d | 0 <= d < |dst'| && dst0[d].pair.None? && dst'[d].pair.Some?
      ensures exists x :: x in mx[..i + 1] && Took(src, dst', x) && x.dst == d
    {
      if d != c.dst {
        var x :| x in mx[..i] && Took(src, dst, x) && x.dst == d;
        assert Took(src, dst', x);
      }
    }
    forall s | 0 <= s < |used'| && used0[s] == 0 && used'[s] > 0
      ensures exists x :: x in mx[..i + 1] && Took(src, dst', x) && src[x.src] == s
    {
      if s != src[c.src] {
        var x :| x in mx[..i] && Took(src, dst, x) && src[x.src] == s;
        assert Took(src, dst', x);
      }
    }
  }

  /** Passing a candidate is fair when its destination has a match by now, or its source is used. */
  lemma FairAt(src: seq<nat>, dst: seq<Dst>, used: seq<nat>, mx: seq<Score>, i: nat, dst0: seq<Dst>, used0: seq<nat>,
               copies: bool)
    requires i < |mx| && Sorted(mx) && DoneBy(src, dst0, used0, dst, used, mx[..i + 1])
    requires 0 <= mx[i].dst < |dst| && mx[i].src < |src| && src[mx[i].src] < |used|
    requires dst[mx[i].dst].pair.Some? || (!copies && used[src[mx[i].src]] > 0)
    ensures Fair(src, dst, mx, mx[i], dst0, used0, copies)
  {
    hide ScoreCompare;
    var o := mx[i];
    forall c | c in mx[..i + 1]
      ensures c in mx && ScoreCompare(c, o) <= 0
    {
      var k :| 0 <= k < i + 1 && mx[..i + 1][k] == c;
      SelfNotWorse(o);
      assert k < i ==> ScoreCompare(mx[k], mx[i]) <= 0;
    }
    if dst[o.dst].pair.Some? {
      if dst0[o.dst].pair.None? {
        var c :| c in mx[..i + 1] && Took(src, dst, c) && c.dst == o.dst;
        assert DstGot(src, dst, mx, o);
      }
    } else if used0[src[o.src]] == 0 {
      var c :| c in mx[..i + 1] && Took(src, dst, c) && src[c.src] == src[o.src];
      assert SrcGone(src, dst, mx, o);
    }
  }

  /** What is matched since `dst0` comes from sources that were not used before. */
  ghost predicate FromUnused(dst0: seq<Dst>, used0: seq<nat>, dst: seq<Dst>) {
    && |dst| == |dst0|
    && forall d :: 0 <= d < |dst| && dst0[d].pair.None? && dst[d].pair.Some? ==>
        dst[d].pair.value < |used0| && used0[dst[d].pair.value] == 0
  }

  lemma OneNew(dst0: seq<Dst>, used0: seq<nat>, dst: seq<Dst>, d: nat, s: nat)
    requires FromUnused(dst0, used0, dst) && d < |dst| && s < |used0| && used0[s] == 0
    ensures FromUnused(dst0, used0, dst[d := dst[d].(pair := Some(s))])
  {
  }

  /** The first `n` candidates that have a minimum score were treated fairly. */
  ghost predicate AllFair(src: seq<nat>, dst: seq<Dst>, mx: seq<Score>, n: nat, minimumScore: nat, dst0: seq<Dst>,
                          used0: seq<nat>, copies: bool)
  {
    forall k :: 0 <= k < n && k < |mx| && mx[k].dst >= 0 && mx[k].score >= minimumScore ==>
      Fair(src, dst, mx, mx[k], dst0, used0, copies)
  }

  lemma AllStayFair(src: seq<nat>, dst: seq<Dst>, dst': seq<Dst>, mx: seq<Score>, n: nat, minimumScore: nat,
                    dst0: seq<Dst>, used0: seq<nat>, copies: bool)
    requires AllFair(src, dst, mx, n, minimumScore, dst0, used0, copies) && Extends(dst, dst')
    ensures AllFair(src, dst', mx, n, minimumScore, dst0, used0, copies)
  {
    hide Fair;
    forall k | 0 <= k < n && k < |mx| && mx[k].dst >= 0 && mx[k].score >= minimumScore
      ensures Fair(src, dst', mx, mx[k], dst0, used0, copies)
    {
      StaysFair(src, dst, dst', mx, mx[k], dst0, used0, copies);
    }
  }

  /** The loop's books behind the first `i` candidates. */
  ghost predicate Taking(src: seq<nat>, dst: seq<Dst>, used: seq<nat>, mx: seq<Score>, i: nat, minimumScore: nat,
                         dst0: seq<Dst>, used0: seq<nat>, copies: bool)
  {
    && i <= |mx| && Sorted(mx) && DoneBy(src, dst0, used0, dst, used, mx[..i])
    && AllFair(src, dst, mx, i, minimumScore, dst0, used0, copies)
    && (!copies ==> FromUnused(dst0, used0, dst))
  }

  lemma TakingStarts(src: seq<nat>, dst: seq<Dst>, used: seq<nat>, mx: seq<Score>, minimumScore: nat, copies: bool)
    requires Sorted(mx)
    ensures Taking(src, dst, used, mx, 0, minimumScore, dst, used, copies)
  {
    hide Sorted;
    assert mx[..0] == [];
  }

  lemma AllTreated(src: seq<nat>, dst: seq<Dst>, used: seq<nat>, mx: seq<Score>, i: nat, minimumScore: nat,
                   dst0: seq<Dst>, used0: seq<nat>, copies: bool)
    requires Taking(src, dst, used, mx, i, minimumScore, dst0, used0, copies)
    requires forall k :: i <= k < |mx| ==> !(mx[k].dst >= 0 && mx[k].score >= minimumScore)
    ensures AllFair(src, dst, mx, |mx|, minimumScore, dst0, used0, copies)
    ensures !copies ==> FromUnused(dst0, used0, dst)
  {
    hide Sorted, Fair, DoneBy, FromUnused;
  }

  /** A candidate is passed. */
  lemma Passed(src: seq<nat>, dst: seq<Dst>, used: seq<nat>, mx: seq<Score>, i: nat, minimumScore: nat,
               dst0: seq<Dst>, used0: seq<nat>, copies: bool)
    requires i < |mx| && Taking(src, dst, used, mx, i, minimumScore, dst0, used0, copies)
    requires 0 <= mx[i].dst < |dst| && mx[i].src < |src| && src[mx[i].src] < |used|
    requires dst[mx[i].dst].pair.Some? || (!copies && used[src[mx[i].src]] > 0)
    ensures Taking(src, dst, used, mx, i + 1, minimumScore, dst0, used0, copies)
  {
    hide Sorted, Fair, DoneBy, FromUnused;
    SkippedOne(src, dst0, used0, dst, used, mx, i);
    FairAt(src, dst, used, mx, i, dst0, used0, copies);
  }

  /** A candidate is taken, without copies only one with an unused source. */
  lemma Taken(src: seq<nat>, dst: seq<Dst>, used: seq<nat>, mx: seq<Score>, i: nat, minimumScore: nat,
              dst0: seq<Dst>, used0: seq<nat>, copies: bool, dst': seq<Dst>, used': seq<nat>)
    requires i < |mx| && Taking(src, dst, used, mx, i, minimumScore, dst0, used0, copies)
    requires var c := mx[i];
      && 0 <= c.dst < |dst| && c.src < |src| && src[c.src] < |used| && dst[c.dst].pair.None?
      && dst' == dst[c.dst := dst[c.dst].(pair := Some(src[c.src]))]
      && used' == used[src[c.src] := used[src[c.src]] + 1]
    requires !copies ==> src[mx[i].src] < |used0| && used0[src[mx[i].src]] == 0
    ensures Taking(src, dst', used', mx, i + 1, minimumScore, dst0, used0, copies)
  {
    hide Sorted, Fair, DoneBy, FromUnused;
    TookOne(src, dst0, used0, dst, used, mx, i, dst', used');
    AllStayFair(src, dst, dst', mx, i, minimumScore, dst0, used0, copies);
    FairAt(src, dst', used', mx, i, dst0, used0, copies);
    if !copies { OneNew(dst0, used0, dst, mx[i].dst, src[mx[i].src]); }
  }
}
