/** Cache-tree nodes: sorted subtree lists, what a valid node asserts, and invalidation
    (cache-tree.c:32-150). */
module CacheTreeNodes {
  import opened Common
  import opened CacheTreeSpec

  /** A cached directory; `entryCount` is negative when the node is invalid. */
  datatype Node = Node(entryCount: int, sha: Sha, down: seq<Sub>)

  datatype Sub = Sub(name: string, used: bool, tree: Option<Node>)

  /** An empty cache. */
  const EMPTY := Node(-1, NULL_SHA, [])

  // ---------------------------------------------------------------- subtree order: length, then bytes

  function MemCmp(one: string, two: string): int
    requires |one| == |two|
  {
    if one == "" then 0
    else if one[0] < two[0] then -1
    else if one[0] > two[0] then 1
    else MemCmp(one[1..], two[1..])
  }

  function SubtreeNameCmp(one: string, two: string): int {
    if |one| < |two| then -1 else if |two| < |one| then 1 else MemCmp(one, two)
  }

  lemma {:induction false} MemCmpFacts(a: string, b: string)
    requires |a| == |b|
    ensures MemCmp(a, b) == 0 <==> a == b
    ensures MemCmp(a, b) < 0 <==> MemCmp(b, a) > 0
  {
    if a != "" {
      MemCmpFacts(a[1..], b[1..]);
      assert a == [a[0]] + a[1..] && b == [b[0]] + b[1..];
    }
  }

  lemma {:induction false} MemCmpTrans(a: string, b: string, c: string)
    requires |a| == |b| == |c| && MemCmp(a, b) < 0 && MemCmp(b, c) < 0
    ensures MemCmp(a, c) < 0
  {
    if a[0] == b[0] == c[0] { MemCmpTrans(a[1..], b[1..], c[1..]); }
  }

  lemma CmpFacts(a: string, b: string)
    ensures SubtreeNameCmp(a, b) == 0 <==> a == b
    ensures SubtreeNameCmp(a, b) < 0 <==> SubtreeNameCmp(b, a) > 0
  {
    if |a| == |b| { MemCmpFacts(a, b); }
  }

  /** Shorter names come first, and of names of one length those with the smaller first different byte. */
  lemma ShorterFirst(a: string, b: string)
    ensures |a| < |b| ==> SubtreeNameCmp(a, b) < 0
    ensures |a| == |b| ==> forall k :: 0 <= k < |a| && a[..k] == b[..k] && a[k] < b[k] ==> SubtreeNameCmp(a, b) < 0
  {
    if |a| == |b| {
      forall k | 0 <= k < |a| && a[..k] == b[..k] && a[k] < b[k]
        ensures MemCmp(a, b) < 0
      {
        FirstDifference(a, b, k);
      }
    }
  }

  lemma {:induction false} FirstDifference(a: string, b: string, k: nat)
    requires k < |a| == |b| && a[..k] == b[..k] && a[k] < b[k]
    ensures MemCmp(a, b) < 0
  {
    if k > 0 {
      assert a[0] == a[..k][0] == b[..k][0] == b[0];
      assert a[1..][..k - 1] == a[..k][1..] && b[1..][..k - 1] == b[..k][1..];
      FirstDifference(a[1..], b[1..], k - 1);
    }
  }

  lemma CmpTrans(a: string, b: string, c: string)
    requires SubtreeNameCmp(a, b) < 0 && SubtreeNameCmp(b, c) < 0
    ensures SubtreeNameCmp(a, c) < 0
  {
    if |a| == |b| == |c| { MemCmpTrans(a, b, c); }
  }

  ghost predicate SortedDown(down: seq<Sub>) {
    forall i, j :: 0 <= i < j < |down| ==> SubtreeNameCmp(down[i].name, down[j].name) < 0
  }

  /** `name` belongs exactly between the first `k` subtrees and the rest. */
  ghost predicate Gap(down: seq<Sub>, name: string, k: nat) {
    && (forall i :: 0 <= i < k && i < |down| ==> SubtreeNameCmp(down[i].name, name) < 0)
    && (forall i :: k <= i < |down| ==> SubtreeNameCmp(name, down[i].name) < 0)
  }

  ghost predicate HasName(down: seq<Sub>, name: string) {
    exists i :: 0 <= i < |down| && down[i].name == name
  }

  lemma GapMeansAbsent(down: seq<Sub>, name: string, k: nat)
    requires Gap(down, name, k)
    ensures !HasName(down, name)
  {
    CmpFacts(name, name);
  }

  lemma InsertKeepsSorted(down: seq<Sub>, k: nat, sub: Sub)
    requires SortedDown(down) && k <= |down| && Gap(down, sub.name, k)
    ensures SortedDown(down[..k] + [sub] + down[k..])
  {
    hide SubtreeNameCmp;
    var r := down[..k] + [sub] + down[k..];
    assert forall i :: 0 <= i < |r| ==> r[i] == if i < k then down[i] else if i == k then sub else down[i - 1];
  }

  lemma OnePlace(down: seq<Sub>, i: nat, j: nat)
    requires SortedDown(down) && i < |down| && j < |down| && down[i].name == down[j].name
    ensures i == j
  {
    CmpFacts(down[i].name, down[j].name);
    CmpFacts(down[j].name, down[i].name);
  }

  // ---------------------------------------------------------------- what a valid node asserts

  /** Every valid node records the count and tree hash of the index entries below its directory. */
  ghost predicate ValidFor(h: seq<Line> -> Sha, it: Node, idx: seq<Entry>, base: string)
    requires WfNames(idx)
  {
    && SortedDown(it.down)
    && (it.entryCount >= 0 ==> it.entryCount == |Below(idx, base)| && it.sha == TreeHash(h, idx, base))
    && forall k :: 0 <= k < |it.down| ==> ValidSub(h, it.down[k], idx, base)
  }

  ghost predicate ValidSub(h: seq<Line> -> Sha, sub: Sub, idx: seq<Entry>, base: string)
    requires WfNames(idx)
  {
    '/' !in sub.name && (sub.tree.Some? ==> ValidFor(h, sub.tree.value, idx, SubBase(base, sub.name)))
  }

  /** An empty cache asserts nothing. */
  lemma EmptyIsValid(h: seq<Line> -> Sha, idx: seq<Entry>, base: string)
    requires WfNames(idx)
    ensures ValidFor(h, EMPTY, idx, base)
  {
  }

  // ---------------------------------------------------------------- invalidation

  /** The first subtree called `name`, if any. */
  function SubNamed(down: seq<Sub>, name: string): (k: Option<nat>)
    ensures k.Some? ==> k.value < |down| && down[k.value].name == name
    ensures k.None? ==> !HasName(down, name)
  {
    if down == [] then None
    else if down[|down| - 1].name == name then Some(|down| - 1)
    else SubNamed(down[..|down| - 1], name)
  }

  /** The cache after invalidating `path`: nodes on the way are marked, the last component's subtree goes. */
  ghost function Invalidated(it: Node, path: string): Node {
    var n := FirstSlash(path);
    var k := SubNamed(it.down, path[..n]);
    if n == |path| then
      Node(-1, it.sha, if k.None? then it.down else it.down[..k.value] + it.down[k.value + 1..])
    else if k.None? || it.down[k.value].tree.None? then it.(entryCount := -1)
    else
      var sub := it.down[k.value];
      Node(-1, it.sha, it.down[k.value := sub.(tree := Some(Invalidated(sub.tree.value, path[n + 1..])))])
  }

  ghost predicate AllSorted(it: Node) {
    SortedDown(it.down) && forall k :: 0 <= k < |it.down| && it.down[k].tree.Some? ==> AllSorted(it.down[k].tree.value)
  }

  lemma FoundIsNamed(down: seq<Sub>, name: string, pos: int)
    requires SortedDown(down) && pos < |down|
    requires if pos >= 0 then down[pos].name == name else Gap(down, name, -pos - 1)
    ensures SubNamed(down, name) == if pos >= 0 then Some(pos) else None
  {
    if pos >= 0 {
      if SubNamed(down, name).Some? { OnePlace(down, pos, SubNamed(down, name).value); }
    } else {
      GapMeansAbsent(down, name, -pos - 1);
    }
  }

  /** The two indexes hold the same entries below every directory that does not lead to `path`. */
  ghost predicate SameElsewhere(idx: seq<Entry>, idx': seq<Entry>, path: string)
    requires WfNames(idx) && WfNames(idx')
  {
    forall base: string :: base < path || Below(idx, base) == Below(idx', base)
  }

  ghost predicate Named(list: seq<Entry>, path: string) {
    forall i :: 0 <= i < |list| ==> list[i].name == path
  }

  /** Adding, removing or replacing entries of one path changes nothing elsewhere. */
  lemma EditIsLocal(before: seq<Entry>, x: seq<Entry>, y: seq<Entry>, after: seq<Entry>, path: string)
    requires Named(x, path) && Named(y, path)
    requires WfNames(before + x + after) && WfNames(before + y + after)
    requires WfNames(before) && WfNames(x) && WfNames(y) && WfNames(after)
    ensures SameElsewhere(before + x + after, before + y + after, path)
  {
    forall base: string | !(base < path)
      ensures Below(before + x + after, base) == Below(before + y + after, base)
    {
      BelowNone(x, base);
      BelowNone(y, base);
      BelowConcat(before, x, base);
      BelowConcat(before, y, base);
      BelowConcat(before + x, after, base);
      BelowConcat(before + y, after, base);
    }
  }

  lemma PrefixTrans(a: string, b: string, c: string)
    ensures a < b && b < c ==> a < c
  {
  }

  /** What is cached for a directory the edit is not below stays valid. */
  lemma {:induction false} ValidTransfers(h: seq<Line> -> Sha, it: Node, idx: seq<Entry>, idx': seq<Entry>,
                                          base: string, path: string)
    requires WfNames(idx) && WfNames(idx') && SameElsewhere(idx, idx', path)
    requires ValidFor(h, it, idx, base) && !(base < path)
    ensures ValidFor(h, it, idx', base)
    decreases it
  {
    hide Below, SubtreeNameCmp, Lines;
    forall k | 0 <= k < |it.down|
      ensures ValidSub(h, it.down[k], idx', base)
    {
      var sub := it.down[k];
      assert ValidSub(h, sub, idx, base);
      if sub.tree.Some? {
        var b := SubBase(base, sub.name);
        PrefixTrans(base, b, path);
        ValidTransfers(h, sub.tree.value, idx, idx', b, path);
      }
    }
  }

  lemma FirstSlashAt(s: string, n: nat)
    requires n < |s| && s[n] == '/' && forall i :: 0 <= i < n ==> s[i] != '/'
    ensures FirstSlash(s) == n
  {
    hide FirstSlash;
  }

  lemma DropCommon(a: string, x: string, y: string)
    requires a + x < a + y
    ensures x <= y
  {
    forall i | 0 <= i < |x|
      ensures x[i] == y[i]
    {
      assert (a + x)[|a| + i] == (a + y)[|a| + i];
    }
  }

  lemma ComponentOf(name: string, rest: string)
    requires '/' !in name && name + "/" <= rest
    ensures FirstSlash(rest) == |name| < |rest| && rest[..|name|] == name
  {
    hide FirstSlash;
    assert forall i :: 0 <= i < |name| ==> rest[i] == (name + "/")[i] == name[i];
    assert rest[|name|] == (name + "/")[|name|];
    FirstSlashAt(rest, |name|);
  }

  /** A subtree on the way to `base` + `rest` is named after the first component of `rest`. */
  lemma OnTheWay(base: string, name: string, rest: string)
    requires '/' !in name && SubBase(base, name) < base + rest
    ensures FirstSlash(rest) == |name| < |rest| && rest[..|name|] == name
  {
    hide FirstSlash;
    assert SubBase(base, name) == base + (name + "/");
    DropCommon(base, name + "/", rest);
    ComponentOf(name, rest);
  }

  lemma SubBaseSplits(base: string, rest: string, n: nat)
    requires n < |rest| && rest[n] == '/'
    ensures SubBase(base, rest[..n]) + rest[n + 1..] == base + rest
  {
    assert rest == rest[..n] + ['/'] + rest[n + 1..];
    assert SubBase(base, rest[..n]) == base + (rest[..n] + ['/']);
    assert base + (rest[..n] + ['/']) + rest[n + 1..] == base + (rest[..n] + ['/'] + rest[n + 1..]);
  }

  /** Subtrees off the way to the edit stay valid. */
  lemma OthersStayValid(h: seq<Line> -> Sha, sub: Sub, idx: seq<Entry>, idx': seq<Entry>, base: string, rest: string)
    requires WfNames(idx) && WfNames(idx') && SameElsewhere(idx, idx', base + rest)
    requires ValidSub(h, sub, idx, base) && (sub.name != rest[..FirstSlash(rest)] || FirstSlash(rest) == |rest|)
    ensures ValidSub(h, sub, idx', base)
  {
    hide Below, SubtreeNameCmp, Lines, FirstSlash, SameElsewhere, SubBase, ValidFor;
    if sub.tree.Some? {
      if SubBase(base, sub.name) < base + rest { OnTheWay(base, sub.name, rest); }
      ValidTransfers(h, sub.tree.value, idx, idx', SubBase(base, sub.name), base + rest);
    }
  }

  /** After an edit at a path, invalidating that path leaves a cache that tells the truth about the new index. */
  lemma {:induction false} InvalidationIsSound(h: seq<Line> -> Sha, it: Node, idx: seq<Entry>, idx': seq<Entry>,
                                               base: string, rest: string)
    requires WfNames(idx) && WfNames(idx') && SameElsewhere(idx, idx', base + rest)
    requires ValidFor(h, it, idx, base)
    ensures ValidFor(h, Invalidated(it, rest), idx', base)
    decreases it
  {
    hide Below, TreeHash, SubtreeNameCmp, Lines, FirstSlash, SameElsewhere, SubBase, ValidSub, SubNamed;
    var n := FirstSlash(rest);
    var k := SubNamed(it.down, rest[..n]);
    var r := Invalidated(it, rest);
    forall j | 0 <= j < |it.down| && (k != Some(j) || n == |rest| || it.down[j].tree.None?)
      ensures ValidSub(h, it.down[j], idx', base)
    {
      assert ValidSub(h, it.down[j], idx, base);
      NotTheFound(it.down, rest[..n], j);
      if it.down[j].tree.None? {
        StaysEmpty(h, it.down[j], idx, idx', base);
      } else {
        OthersStayValid(h, it.down[j], idx, idx', base, rest);
      }
    }
    if n == |rest| {
      assert k.Some? ==> forall j :: 0 <= j < |r.down| ==> r.down[j] == it.down[if j < k.value then j else j + 1];
    } else if k.Some? && it.down[k.value].tree.Some? {
      var sub := it.down[k.value];
      assert ValidSub(h, sub, idx, base);
      SubIsValid(h, sub, idx, base);
      SubBaseSplits(base, rest, n);
      InvalidationIsSound(h, sub.tree.value, idx, idx', SubBase(base, sub.name), rest[n + 1..]);
      SubBecomesValid(h, sub.(tree := Some(Invalidated(sub.tree.value, rest[n + 1..]))), idx', base);
    }
  }

  lemma NotTheFound(down: seq<Sub>, name: string, j: nat)
    requires SortedDown(down) && j < |down|
    ensures SubNamed(down, name) != Some(j) ==> down[j].name != name
  {
    hide SubNamed;
    var k := SubNamed(down, name);
    if k.Some? && down[j].name == name { OnePlace(down, j, k.value); }
  }

  lemma SubIsValid(h: seq<Line> -> Sha, sub: Sub, idx: seq<Entry>, base: string)
    requires WfNames(idx) && ValidSub(h, sub, idx, base) && sub.tree.Some?
    ensures '/' !in sub.name && ValidFor(h, sub.tree.value, idx, SubBase(base, sub.name))
  {
  }

  lemma SubBecomesValid(h: seq<Line> -> Sha, sub: Sub, idx: seq<Entry>, base: string)
    requires WfNames(idx) && '/' !in sub.name && sub.tree.Some?
    requires ValidFor(h, sub.tree.value, idx, SubBase(base, sub.name))
    ensures ValidSub(h, sub, idx, base)
  {
  }

  lemma StaysEmpty(h: seq<Line> -> Sha, sub: Sub, idx: seq<Entry>, idx': seq<Entry>, base: string)
    requires WfNames(idx) && WfNames(idx') && ValidSub(h, sub, idx, base) && sub.tree.None?
    ensures ValidSub(h, sub, idx', base)
  {
  }
}
