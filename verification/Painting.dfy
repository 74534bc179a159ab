/** What the paint-down walk of commit.c leaves behind, on snapshots of the flag words. */
module Painting {
  import opened CommitGraph

  /** The four flag bits of the merge-base code (commit.c:590-593). */
  datatype Flags = Flags(parent1: bool, parent2: bool, stale: bool, result: bool) {
    predicate Covers(m: Flags) {
      (m.parent1 ==> parent1) && (m.parent2 ==> parent2) && (m.stale ==> stale) && (m.result ==> result)
    }

    function Or(m: Flags): Flags {
      Flags(parent1 || m.parent1, parent2 || m.parent2, stale || m.stale, result || m.result)
    }

    function Without(m: Flags): Flags {
      Flags(parent1 && !m.parent1, parent2 && !m.parent2, stale && !m.stale, result && !m.result)
    }

    predicate Touches(m: Flags) {
      (parent1 && m.parent1) || (parent2 && m.parent2) || (stale && m.stale) || (result && m.result)
    }

    /** The flags a processed commit hands to its parents: a found merge makes them stale. */
    function Spread(): Flags {
      Flags(parent1, parent2, stale || (parent1 && parent2), false)
    }

    predicate Bit(b: nat) {
      if b == 0 then parent1 else if b == 1 then parent2 else stale
    }
  }

  const CLEAR := Flags(false, false, false, false)
  const ALL_FLAGS := Flags(true, true, true, true)

  // ---------------------------------------------------------------- merge bases, by ancestry alone

  ghost predicate AncestorOfAny(ps: Parents, twos: seq<nat>, c: nat) {
    exists i :: 0 <= i < |twos| && Reaches(ps, twos[i], c)
  }

  /** `c` is an ancestor of `one` and of some element of `twos`. */
  ghost predicate Common(ps: Parents, one: nat, twos: seq<nat>, c: nat) {
    Reaches(ps, one, c) && AncestorOfAny(ps, twos, c)
  }

  /** Another common ancestor has `c` as a proper ancestor. */
  ghost predicate Beaten(ps: Parents, one: nat, twos: seq<nat>, c: nat) {
    exists d :: d != c && Common(ps, one, twos, d) && Reaches(ps, d, c)
  }

  /** A merge base: a common ancestor that no other common ancestor descends from. */
  ghost predicate MergeBase(ps: Parents, one: nat, twos: seq<nat>, c: nat) {
    Common(ps, one, twos, c) && !Beaten(ps, one, twos, c)
  }

  /** Every common ancestor is reached by a merge base: climb until unbeaten. */
  lemma {:induction false} MergeBaseAbove(ps: Parents, one: nat, twos: seq<nat>, c: nat) returns (m: nat)
    requires Dag(ps) && Common(ps, one, twos, c)
    ensures MergeBase(ps, one, twos, m) && Reaches(ps, m, c)
    decreases ProperlyAbove(ps, c)
  {
    InBounds(ps, one, c);
    if Beaten(ps, one, twos, c) {
      var d :| d != c && Common(ps, one, twos, d) && Reaches(ps, d, c);
      InBounds(ps, d, c);
      AboveShrinks(ps, d, c);
      m := MergeBaseAbove(ps, one, twos, d);
      ReachesTrans(ps, m, d, c);
    } else {
      m := c;
      ReachesSelf(ps, c);
    }
  }

  // ---------------------------------------------------------------- the walk's invariants

  ghost predicate SoundAt(ps: Parents, one: nat, twos: seq<nat>, fl: Flags, c: nat) {
    && (fl.parent1 ==> Reaches(ps, one, c))
    && (fl.parent2 ==> AncestorOfAny(ps, twos, c))
    && (fl.stale ==> fl.parent1 && fl.parent2 && Beaten(ps, one, twos, c))
    && (fl.result ==> fl.parent1 && fl.parent2)
  }

  /** Every flag set tells the truth about ancestry. */
  ghost predicate Sound(ps: Parents, one: nat, twos: seq<nat>, f: seq<Flags>) {
    |f| == |ps| && forall c :: 0 <= c < |f| ==> SoundAt(ps, one, twos, f[c], c)
  }

  /** Every marked commit is a tip or the parent of a marked commit. */
  ghost predicate Rooted(ps: Parents, tips: seq<nat>, f: seq<Flags>)
    requires |f| == |ps|
  {
    forall c :: 0 <= c < |f| && f[c].Touches(ALL_FLAGS) ==>
      c in tips || exists d :: 0 <= d < |f| && f[d].Touches(ALL_FLAGS) && c in ps[d]
  }

  ghost predicate SettledAt(ps: Parents, f: seq<Flags>, c: nat)
    requires |f| == |ps| && c < |ps|
  {
    forall p :: p in ps[c] && p < |f| ==> f[p].Covers(f[c].Spread())
  }

  /** Every commit outside the queue has handed its flags to its parents. */
  ghost predicate Settled(ps: Parents, f: seq<Flags>, q: seq<nat>)
    requires |f| == |ps|
  {
    forall c :: 0 <= c < |f| ==> c in q || SettledAt(ps, f, c)
  }

  ghost predicate Found(fl: Flags) {
    fl.parent1 && fl.parent2 && !fl.stale ==> fl.result
  }

  /** RESULT marks exactly the recorded commits; an unqueued found merge is recorded. */
  ghost predicate Recorded(f: seq<Flags>, q: seq<nat>, result: seq<nat>) {
    && (forall c :: 0 <= c < |f| ==> (f[c].result <==> c in result))
    && (forall c :: 0 <= c < |f| ==> c in q || Found(f[c]))
    && (forall c :: c in result ==> c < |f|)
    && Distinct(result)
  }

  ghost predicate TipsPainted(one: nat, twos: seq<nat>, f: seq<Flags>) {
    one < |f| && f[one].parent1 && forall t :: t in twos ==> t < |f| && f[t].parent2
  }

  ghost predicate Painted(ps: Parents, one: nat, twos: seq<nat>, f: seq<Flags>, q: seq<nat>, result: seq<nat>) {
    && Sound(ps, one, twos, f)
    && Rooted(ps, [one] + twos, f)
    && Settled(ps, f, q)
    && Recorded(f, q, result)
    && TipsPainted(one, twos, f)
  }

  // ---------------------------------------------------------------- each step keeps them

  lemma SpreadSound(ps: Parents, one: nat, twos: seq<nat>, fc: Flags, fp: Flags, c: nat, p: nat)
    requires Dag(ps) && c < |ps| && p in ps[c]
    requires SoundAt(ps, one, twos, fc, c) && SoundAt(ps, one, twos, fp, p)
    ensures SoundAt(ps, one, twos, fp.Or(fc.Spread()), p)
  {
    ParentIsProper(ps, c, p);
    if fc.parent1 { ReachesParent(ps, one, c, p); }
    if fc.parent2 {
      var i :| 0 <= i < |twos| && Reaches(ps, twos[i], c);
      ReachesParent(ps, twos[i], c, p);
    }
    if fc.stale {
      var d :| d != c && Common(ps, one, twos, d) && Reaches(ps, d, c);
      ReachesParent(ps, d, c, p);
    } else if fc.parent1 && fc.parent2 {
      assert Common(ps, one, twos, c);
    }
  }

  ghost predicate TipsOnly(one: nat, twos: seq<nat>, f: seq<Flags>) {
    forall c :: 0 <= c < |f| ==> f[c] == Flags(c == one, c in twos, false, false)
  }

  /** The starting marks, with every tip queued. */
  lemma StartPainted(ps: Parents, one: nat, twos: seq<nat>, f: seq<Flags>, q: seq<nat>)
    requires |f| == |ps| && one < |ps| && forall t :: t in twos ==> t < |ps|
    requires TipsOnly(one, twos, f) && one !in twos
    requires forall x :: x in q <==> x == one || x in twos
    ensures Painted(ps, one, twos, f, q, [])
  {
    ReachesSelf(ps, one);
    forall t | t in twos
      ensures AncestorOfAny(ps, twos, t)
    {
      var i :| 0 <= i < |twos| && twos[i] == t;
      ReachesSelf(ps, t);
    }
    forall c | 0 <= c < |f|
      ensures SoundAt(ps, one, twos, f[c], c) && (c in q || SettledAt(ps, f, c))
    {
    }
    assert forall c :: c in [one] + twos <==> c == one || c in twos;
  }

  lemma PaintSettles(ps: Parents, f: seq<Flags>, q: seq<nat>, c: nat, p: nat, q': seq<nat>)
    requires |f| == |ps| && Settled(ps, f, q) && c < |ps| && p < |ps|
    requires forall x :: x in q' <==> x == p || x in q
    ensures Settled(ps, f[p := f[p].Or(f[c].Spread())], q')
  {
    var f' := f[p := f[p].Or(f[c].Spread())];
    forall x | 0 <= x < |f'|
      ensures x in q' || SettledAt(ps, f', x)
    {
      if x !in q' { assert SettledAt(ps, f, x); }
    }
  }

  lemma PaintRooted(ps: Parents, tips: seq<nat>, f: seq<Flags>, c: nat, p: nat)
    requires |f| == |ps| && Rooted(ps, tips, f) && c < |ps| && p in ps[c] && p < |ps| && p != c
    requires !f[p].Covers(f[c].Spread())
    ensures Rooted(ps, tips, f[p := f[p].Or(f[c].Spread())])
  {
    var f' := f[p := f[p].Or(f[c].Spread())];
    assert f'[c].Touches(ALL_FLAGS);
    forall x | 0 <= x < |f'| && f'[x].Touches(ALL_FLAGS) && x !in tips
      ensures exists d :: 0 <= d < |f'| && f'[d].Touches(ALL_FLAGS) && x in ps[d]
    {
      if x != p {
        var d :| 0 <= d < |f| && f[d].Touches(ALL_FLAGS) && x in ps[d];
        assert f'[d].Touches(ALL_FLAGS);
      }
    }
  }

  /** Handing the popped commit's flags to one parent, which is queued again. */
  lemma PaintParent(ps: Parents, one: nat, twos: seq<nat>, f: seq<Flags>, q: seq<nat>, result: seq<nat>,
                    c: nat, p: nat, q': seq<nat>)
    requires Dag(ps) && Painted(ps, one, twos, f, q, result)
    requires c < |ps| && p in ps[c] && !f[p].Covers(f[c].Spread())
    requires forall x :: x in q' <==> x == p || x in q
    ensures Painted(ps, one, twos, f[p := f[p].Or(f[c].Spread())], q', result)
  {
    ParentIsProper(ps, c, p);
    SpreadSound(ps, one, twos, f[c], f[p], c, p);
    PaintSettles(ps, f, q, c, p, q');
    PaintRooted(ps, [one] + twos, f, c, p);
  }

  /** Setting RESULT on a popped commit that carries both paints and is not stale. */
  lemma RecordFound(ps: Parents, one: nat, twos: seq<nat>, f: seq<Flags>, q: seq<nat>, result: seq<nat>,
                    c: nat, result': seq<nat>)
    requires Painted(ps, one, twos, f, q, result)
    requires c < |ps| && f[c].parent1 && f[c].parent2 && !f[c].result
    requires Distinct(result') && forall x :: x in result' <==> x == c || x in result
    ensures Painted(ps, one, twos, f[c := f[c].(result := true)], q, result')
  {
    var f' := f[c := f[c].(result := true)];
    forall x | 0 <= x < |f'|
      ensures x in q || SettledAt(ps, f', x)
    {
      if x !in q { assert SettledAt(ps, f, x); }
    }
    forall x | 0 <= x < |f'| && f'[x].Touches(ALL_FLAGS) && x !in [one] + twos
      ensures exists d :: 0 <= d < |f'| && f'[d].Touches(ALL_FLAGS) && x in ps[d]
    {
      var d :| 0 <= d < |f| && f[d].Touches(ALL_FLAGS) && x in ps[d];
      assert f'[d].Touches(ALL_FLAGS);
    }
  }

  /** The popped commit leaves the queue once all its parents carry its flags. */
  lemma Popped(ps: Parents, one: nat, twos: seq<nat>, f: seq<Flags>, c: nat, q: seq<nat>, result: seq<nat>)
    requires Painted(ps, one, twos, f, [c] + q, result)
    requires c < |ps| && SettledAt(ps, f, c) && Found(f[c])
    ensures Painted(ps, one, twos, f, q, result)
  {
    forall x | 0 <= x < |f|
      ensures (x in q || SettledAt(ps, f, x)) && (x in q || Found(f[x]))
    {
      assert x in [c] + q <==> x == c || x in q;
    }
  }

  // ---------------------------------------------------------------- when only stale commits are queued

  /** Along a path to a commit that is not beaten, nothing is stale, so the paint got through. */
  lemma {:induction false} PaintReaches(ps: Parents, one: nat, twos: seq<nat>, f: seq<Flags>, q: seq<nat>,
                                        path: seq<nat>, k: nat, m: nat)
    requires Dag(ps) && Sound(ps, one, twos, f) && Settled(ps, f, q)
    requires forall x :: x in q ==> x < |f| && f[x].stale
    requires IsPath(ps, path) && k < |path| && path[|path| - 1] == m && !Beaten(ps, one, twos, m)
    ensures !f[path[k]].stale && path[k] !in q
    ensures f[path[0]].parent1 ==> f[path[k]].parent1
    ensures f[path[0]].parent2 ==> f[path[k]].parent2
  {
    var c := path[k];
    if f[c].stale {
      var d :| d != c && Common(ps, one, twos, d) && Reaches(ps, d, c);
      assert PathFromTo(ps, path[k..], c, m);
      ReachesTrans(ps, d, c, m);
      if d == m { ReachesAntisym(ps, d, c); }
      assert false;
    }
    if k > 0 {
      PaintReaches(ps, one, twos, f, q, path, k - 1, m);
      assert SettledAt(ps, f, path[k - 1]);
      assert c in ps[path[k - 1]];
    }
  }

  /** The early stop is harmless: every merge base has been recorded and is not stale. */
  lemma MergeBaseRecorded(ps: Parents, one: nat, twos: seq<nat>, f: seq<Flags>, q: seq<nat>, result: seq<nat>,
                          m: nat)
    requires Dag(ps) && Painted(ps, one, twos, f, q, result)
    requires forall x :: x in q ==> x < |f| && f[x].stale
    requires MergeBase(ps, one, twos, m)
    ensures m in result && m < |f| && !f[m].stale
  {
    var p1 :| PathFromTo(ps, p1, one, m);
    PaintReaches(ps, one, twos, f, q, p1, |p1| - 1, m);
    var i :| 0 <= i < |twos| && Reaches(ps, twos[i], m);
    var p2 :| PathFromTo(ps, p2, twos[i], m);
    PaintReaches(ps, one, twos, f, q, p2, |p2| - 1, m);
    assert twos[i] in twos;
    assert Found(f[m]);
  }

  // ---------------------------------------------------------------- termination measure

  ghost function Missing(f: seq<Flags>): set<(nat, nat)> {
    set c: nat, b: nat | c < |f| && b < 3 && !f[c].Bit(b) :: (c, b)
  }

  lemma PaintShrinks(f: seq<Flags>, p: nat, m: Flags)
    requires p < |f| && !m.result && !f[p].Covers(m)
    ensures Missing(f[p := f[p].Or(m)]) < Missing(f)
  {
    var f' := f[p := f[p].Or(m)];
    var b := if m.parent1 && !f[p].parent1 then 0 else if m.parent2 && !f[p].parent2 then 1 else 2;
    assert (p, b) in Missing(f) && (p, b) !in Missing(f');
    assert forall c: nat, b: nat :: c < |f| && f[c].Bit(b) ==> f'[c].Bit(b);
  }

  lemma RecordKeepsMissing(f: seq<Flags>, c: nat)
    requires c < |f|
    ensures Missing(f[c := f[c].(result := true)]) == Missing(f)
  {
    var f' := f[c := f[c].(result := true)];
    assert forall x: nat, b: nat :: x < |f| ==> f[x].Bit(b) == f'[x].Bit(b);
  }
}
