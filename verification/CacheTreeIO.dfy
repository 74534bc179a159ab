/** Writing a cache tree to the index extension and reading it back (cache-tree.c:387-513). */
module CacheTreeIO {
  import opened Common
  import opened CacheTreeSpec
  import opened CacheTreeNodes
  import opened CacheTreeUpdate
  import opened CacheTree
  import opened Decimal

  const NUL := '\0'

  /** Subtrees have nodes, and names that are not cut short by a NUL. */
  ghost predicate Complete(it: Node) {
    forall k :: 0 <= k < |it.down| ==>
      it.down[k].tree.Some? && NUL !in it.down[k].name && Complete(it.down[k].tree.value)
  }

  // ---------------------------------------------------------------- the format

  /** Only a valid node's hash is written. */
  function HashOf(it: Node): string {
    if it.entryCount >= 0 then it.sha.bytes else ""
  }

  function Head(it: Node): string {
    Dec(it.entryCount) + (" " + Dec(|it.down|) + ("\n" + HashOf(it)))
  }

  ghost function Written(it: Node, path: string): string
    requires Complete(it)
    decreases it, 1
  {
    path + ([NUL] + (Head(it) + WrittenSubs(it, 0)))
  }

  ghost function WrittenSubs(it: Node, i: nat): string
    requires Complete(it) && i <= |it.down|
    decreases it, 0, |it.down| - i
  {
    if i == |it.down| then ""
    else Written(it.down[i].tree.value, it.down[i].name) + WrittenSubs(it, i + 1)
  }

  // ---------------------------------------------------------------- writing

  lemma {:induction false} AdjacentSorted(down: seq<Sub>, i: nat)
    requires 0 < i < |down| && SortedDown(down[..i])
    ensures SortedDown(down[..i + 1]) <==> SubtreeNameCmp(down[i - 1].name, down[i].name) < 0
  {
    hide SubtreeNameCmp;
    var a, b := down[..i], down[..i + 1];
    assert forall k :: 0 <= k < i ==> b[k] == a[k] == down[k];
    assert b[i] == down[i];
    if SubtreeNameCmp(down[i - 1].name, down[i].name) < 0 {
      forall k | 0 <= k < i
        ensures SubtreeNameCmp(b[k].name, b[i].name) < 0
      {
        if k < i - 1 {
          assert SubtreeNameCmp(a[k].name, a[i - 1].name) < 0;
          CmpTrans(b[k].name, b[i - 1].name, b[i].name);
        }
      }
    }
  }

  /** Appends the node; None stands for dying on an unsorted list. */
  method WriteOne(buffer: string, it: Tree, path: string) returns (r: Option<string>)
    requires it.Valid() && Complete(it.Value())
    ensures r.Some? <==> AllSorted(it.Value())
    ensures r.Some? ==> r.value == buffer + Written(it.Value(), path)
    decreases it.Repr, 1
  {
    hide SubtreeNameCmp, Head, SubOf, Written, WrittenSubs, AllSorted, SortedDown;
    ghost var node := it.Value();
    var head := HeadOf(it);
    var out := buffer + path + [NUL] + head;
    WriteStarts(buffer, node, path);
    NoneSorted(node.down);
    for i := 0 to |it.down|
      invariant |node.down| == |it.down| && SortedDown(node.down[..i])
      invariant forall k :: 0 <= k < i ==> AllSorted(node.down[k].tree.value)
      invariant out + WrittenSubs(node, i) == buffer + Written(node, path)
    {
      var r' := WriteSub(out, it, i);
      if r'.None? {
        return None;
      }
      NextWritten(node, i, out);
      out := r'.value;
    }
    assert node.down[..|node.down|] == node.down;
    AllWritten(node, out);
    return Some(out);
  }

  lemma NoneSorted(down: seq<Sub>)
    ensures SortedDown(down[..0])
  {
  }

  lemma NextWritten(it: Node, i: nat, out: string)
    requires Complete(it) && i < |it.down|
    ensures out + Written(it.down[i].tree.value, it.down[i].name) + WrittenSubs(it, i + 1)
         == out + WrittenSubs(it, i)
  {
    hide Written;
    var one, rest := Written(it.down[i].tree.value, it.down[i].name), WrittenSubs(it, i + 1);
    assert out + (one + rest) == out + one + rest;
  }

  lemma AllWritten(it: Node, out: string)
    requires Complete(it) && SortedDown(it.down) && forall k :: 0 <= k < |it.down| ==> AllSorted(it.down[k].tree.value)
    ensures AllSorted(it) && out + WrittenSubs(it, |it.down|) == out
  {
    hide SubtreeNameCmp;
    assert out + "" == out;
  }

  /** One subtree, which must sort after the one before. */
  method WriteSub(out: string, it: Tree, i: nat) returns (r: Option<string>)
    requires it.Valid() && Complete(it.Value()) && i < |it.down| == |it.Value().down|
    requires SortedDown(it.Value().down[..i])
    ensures r.Some? ==> SortedDown(it.Value().down[..i + 1]) && AllSorted(it.Value().down[i].tree.value)
    ensures r.Some? ==> r.value == out + Written(it.Value().down[i].tree.value, it.Value().down[i].name)
    ensures r.None? ==> !AllSorted(it.Value())
    decreases it.Repr, 0
  {
    hide SubtreeNameCmp, SubOf, Written;
    ghost var node := it.Value();
    var down := it.down[i];
    it.ShowsAt(i);
    if i > 0 {
      it.ShowsAt(i - 1);
      AdjacentSorted(node.down, i);
      CmpFacts(it.down[i - 1].name, down.name);
      CmpFacts(down.name, it.down[i - 1].name);
      if SubtreeNameCmp(down.name, it.down[i - 1].name) <= 0 {
        NotSorted(node, i);
        return None;
      }
    }
    r := WriteOne(out, down.tree, down.name);
  }

  method HeadOf(it: Tree) returns (s: string)
    requires it.Valid()
    ensures s == Head(it.Value())
  {
    s := Dec(it.entryCount) + (" " + Dec(|it.down|) + ("\n" + if it.entryCount >= 0 then it.sha.bytes else ""));
  }

  lemma WriteStarts(buffer: string, it: Node, path: string)
    requires Complete(it)
    ensures buffer + path + [NUL] + Head(it) + WrittenSubs(it, 0) == buffer + Written(it, path)
  {
    hide Head, WrittenSubs;
  }

  lemma NotSorted(it: Node, i: nat)
    requires i < |it.down| && !SortedDown(it.down[..i + 1])
    ensures !AllSorted(it)
  {
    hide SubtreeNameCmp;
    assert forall k :: 0 <= k <= i ==> it.down[..i + 1][k] == it.down[k];
  }

  // ---------------------------------------------------------------- reading

  datatype Read = Got(it: Tree, rest: string) | Null | Die

  /** What reading restores: everything but the hash of an invalid node and the scratch marks. */
  ghost function Restored(it: Node): Node
    requires Complete(it)
    decreases it, 1
  {
    Node(it.entryCount, if it.entryCount >= 0 then it.sha else NULL_SHA, RestoredSubs(it, |it.down|))
  }

  ghost function RestoredSubs(it: Node, i: nat): (r: seq<Sub>)
    requires Complete(it) && i <= |it.down|
    ensures |r| == i && forall k :: 0 <= k < i ==> r[k].name == it.down[k].name
    decreases it, 0, i
  {
    if i == 0 then []
    else RestoredSubs(it, i - 1) + [Sub(it.down[i - 1].name, false, Some(Restored(it.down[i - 1].tree.value)))]
  }

  /** The buffer starts with what was written for `it`. */
  ghost predicate Starts(buf: string, it: Node, path: string, rest: string) {
    Complete(it) && AllSorted(it) && NUL !in path && buf == Written(it, path) + rest
  }

  /** The C string at the start of the buffer. */
  function CString(buf: string): (s: string)
    ensures |s| <= |buf| && buf[..|s|] == s && NUL !in s && (|s| < |buf| ==> buf[|s|] == NUL)
  {
    if buf == "" || buf[0] == NUL then "" else [buf[0]] + CString(buf[1..])
  }

  lemma {:induction false} CStringIs(path: string, rest: string)
    requires NUL !in path
    ensures CString(path + [NUL] + rest) == path
  {
    if path == "" {
      assert path + [NUL] + rest == [NUL] + rest;
    } else {
      assert (path + [NUL] + rest)[1..] == path[1..] + [NUL] + rest;
      CStringIs(path[1..], rest);
    }
  }

  /** A subtree that sorts after all others is put at the end. */
  lemma GrowsAtEnd(down0: seq<Sub>, down: seq<Sub>, pos: nat, name: string)
    requires Grown(down0, down, pos, name) && SortedDown(down0) && SortedDown(down)
    requires forall k :: 0 <= k < |down0| ==> SubtreeNameCmp(down0[k].name, name) < 0
    ensures down == down0 + [Sub(name, false, None)] && pos == |down0|
  {
    hide SubtreeNameCmp;
    CmpFacts(name, name);
    if pos < |down0| {
      assert down[pos + 1] == down0[pos];
      CmpFacts(down0[pos].name, name);
    }
  }

  // ---------------------------------------------------------------- the fixed part of a node

  lemma AfterName(buf: string, it: Node, path: string, rest: string)
    requires Starts(buf, it, path, rest)
    ensures CString(buf) == path && |path| < |buf|
    ensures buf[|path| + 1..] == Head(it) + WrittenSubs(it, 0) + rest
  {
    hide Head, WrittenSubs, AllSorted;
    var tail := Head(it) + WrittenSubs(it, 0) + rest;
    assert buf == path + [NUL] + tail;
    CStringIs(path, tail);
  }

  /** Numbers, line end and hash, as reading finds them. */
  ghost predicate HeadIs(s: string, it: Node, tail: string) {
    var (count, n) := StrToL(s);
    && n > 0 && count == it.entryCount
    && var (nr, m) := StrToL(s[n..]);
    && m > 0 && nr == |it.down| && n + m < |s| && LineLen(s) == n + m
    && |Head(it)| == n + m + 1 + |HashOf(it)|
    && s[n + m + 1..] == HashOf(it) + tail
  }

  lemma HeadReads(it: Node, tail: string)
    ensures HeadIs(Head(it) + tail, it, tail)
  {
    hide Dec, StrToL, DecNat, LineLen;
    var a, b := Dec(it.entryCount), Dec(|it.down|);
    var t := HashOf(it) + tail;
    var s := Head(it) + tail;
    var after := " " + b + ("\n" + t);
    assert s == a + after;
    ReadsBack(it.entryCount, after);
    assert s[|a|..] == after;
    assert Ends("\n" + t);
    ReadsBack(|it.down|, "\n" + t);
    DecIsPlain(it.entryCount);
    DecIsPlain(|it.down|);
    assert s == a + (" " + b) + ("\n" + t);
    LineIs(a + (" " + b), t);
  }

  lemma DecIsPlain(n: int)
    ensures Dec(n) != "" && NUL !in Dec(n) && '\n' !in Dec(n)
  {
  }

  /** How many characters come before the end of the line, or a NUL. */
  function LineLen(s: string): (n: nat)
    ensures n <= |s|
  {
    if s == "" || s[0] == NUL || s[0] == '\n' then 0 else 1 + LineLen(s[1..])
  }

  lemma {:induction false} LineIs(line: string, t: string)
    requires NUL !in line && '\n' !in line
    ensures LineLen(line + ("\n" + t)) == |line|
  {
    if line == "" {
      assert line + ("\n" + t) == "\n" + t;
    } else {
      assert (line + ("\n" + t))[1..] == line[1..] + ("\n" + t);
      LineIs(line[1..], t);
    }
  }

  /** The entry count, the number of subtrees, the hash of a valid node, and where they end. */
  method ReadHead(buf: string, ghost it: Node, ghost tail: string) returns (r: Option<(int, int, Sha, nat)>)
    ensures r.Some? ==> r.value.3 <= |buf|
    ensures buf == Head(it) + tail ==>
      r == Some((it.entryCount, |it.down|, if it.entryCount >= 0 then it.sha else NULL_SHA, |Head(it)|))
  {
    hide Head, StrToL, LineLen, Dec;
    ghost var has := buf == Head(it) + tail;
    if has {
      HeadReads(it, tail);
    }
    var (count, n) := StrToL(buf);
    if n == 0 {
      return None;
    }
    var (nr, m) := StrToL(buf[n..]);
    if m == 0 {
      return None;
    }
    var p := LineLen(buf);
    if p == |buf| {
      return None;
    }
    p := p + 1;
    var sha := NULL_SHA;
    if 0 <= count {
      if |buf| - p < 20 {
        return None;
      }
      if has {
        assert buf[p..][..20] == it.sha.bytes;
        assert buf[p..p + 20] == buf[p..][..20];
      }
      sha := Sha(buf[p..p + 20]);
      p := p + 20;
    }
    return Some((count, nr, sha, p));
  }

  /** The rest of the buffer holds the subtrees from `i` on. */
  ghost predicate SubsFollow(buf: string, it: Node, i: nat, rest: string) {
    Complete(it) && AllSorted(it) && i <= |it.down| && buf == WrittenSubs(it, i) + rest
  }

  lemma SubStarts(buf: string, it: Node, i: nat, rest: string)
    requires SubsFollow(buf, it, i, rest) && i < |it.down|
    ensures Starts(buf, it.down[i].tree.value, it.down[i].name, WrittenSubs(it, i + 1) + rest)
    ensures SubsFollow(WrittenSubs(it, i + 1) + rest, it, i + 1, rest)
    ensures CString(buf) == it.down[i].name && Complete(it) && AllSorted(it)
  {
    hide SubtreeNameCmp, Written;
    var one, more := Written(it.down[i].tree.value, it.down[i].name), WrittenSubs(it, i + 1);
    assert one + more + rest == one + (more + rest);
    AfterName(buf, it.down[i].tree.value, it.down[i].name, more + rest);
  }

  lemma LaterName(it: Node, i: nat)
    requires Complete(it) && AllSorted(it) && i < |it.down|
    ensures forall k :: 0 <= k < i ==> SubtreeNameCmp(RestoredSubs(it, i)[k].name, it.down[i].name) < 0
  {
    hide SubtreeNameCmp;
  }

  lemma StartsSubs(buf: string, it: Node, path: string, rest: string)
    requires Starts(buf, it, path, rest)
    ensures Complete(it) && AllSorted(it) && CString(buf) == path && |path| < |buf|
    ensures buf[|path| + 1..] == Head(it) + (WrittenSubs(it, 0) + rest)
    ensures buf[|path| + 1..][|Head(it)|..] == WrittenSubs(it, 0) + rest
    ensures SubsFollow(WrittenSubs(it, 0) + rest, it, 0, rest) && RestoredSubs(it, 0) == []
  {
    hide Head, WrittenSubs, AllSorted, Written;
    AfterName(buf, it, path, rest);
  }

  lemma SetKeepsSorted(down: seq<Sub>, pos: nat, t: Node)
    requires SortedDown(down) && pos < |down|
    ensures SortedDown(down[pos := down[pos].(tree := Some(t))])
  {
    hide SubtreeNameCmp;
  }

  lemma RestoredNext(it: Node, i: nat)
    requires Complete(it) && i < |it.down|
    ensures RestoredSubs(it, i + 1)
         == RestoredSubs(it, i) + [Sub(it.down[i].name, false, Some(Restored(it.down[i].tree.value)))]
  {
  }

  lemma FollowEnds(buf: string, it: Node, i: nat, rest: string)
    requires SubsFollow(buf, it, i, rest) && i == |it.down|
    ensures buf == rest
  {
  }

  /** A fresh tree that stands for `it`, with `rest` left over. */
  ghost predicate Reads(r: Read, it: Node, rest: string)
    reads if r.Got? then {r.it} + r.it.Repr else {}
  {
    r.Got? && r.it.Valid() && Complete(it) && r.it.Value() == Restored(it) && r.rest == rest
  }

  /** Reading one node and its subtrees from any buffer.  What was written for a node with sorted subtrees comes
      back, and exactly the bytes written are used up. */
  method ReadOne(buf: string, ghost it: Node, ghost path: string, ghost rest: string) returns (r: Read)
    ensures Starts(buf, it, path, rest) ==> Reads(r, it, rest)
    ensures r.Got? ==> |r.rest| < |buf| && r.it.Valid() && fresh(r.it.Repr)
    decreases |buf|, 0
  {
    hide Head, WrittenSubs, Written, AllSorted, SubtreeNameCmp, RestoredSubs, Starts, SubsFollow, SubOf;
    ghost var has := Starts(buf, it, path, rest);
    if has {
      StartsSubs(buf, it, path, rest);
    }
    var p := |CString(buf)|;
    if p == |buf| {
      return Null;
    }
    p := p + 1;
    var head := ReadHead(buf[p..], it, if has then WrittenSubs(it, 0) + rest else "");
    if head.None? {
      return Null;
    }
    var (count, nr, sha, used) := head.value;
    var buf' := buf[p..][used..];
    var tree := new Tree();
    tree.Record(count, sha);
    var i: nat := 0;
    while i < nr
      invariant |buf'| < |buf| && tree.Valid() && fresh(tree.Repr) && SortedDown(tree.Value().down)
      invariant tree.Value() == Node(count, sha, tree.Value().down)
      invariant has ==> i <= nr == |it.down| && SubsFollow(buf', it, i, rest)
      invariant has ==> tree.Value().down == RestoredSubs(it, i)
      decreases nr - i
    {
      var r' := ReadSub(buf', tree, it, i, rest, has);
      if !r'.Got? {
        return r';
      }
      buf' := r'.rest;
      i := i + 1;
    }
    if has {
      FollowEnds(buf', it, i, rest);
    }
    if nr != |tree.down| {
      return Die;
    }
    r := Got(tree, buf');
  }

  /** Reading one subtree and putting it in its place. */
  method ReadSub(buf: string, tree: Tree, ghost it: Node, ghost i: nat, ghost rest: string, ghost has: bool)
    returns (r: Read)
    requires tree.Valid() && SortedDown(tree.Value().down)
    requires has ==> SubsFollow(buf, it, i, rest) && i < |it.down| && tree.Value().down == RestoredSubs(it, i)
    modifies tree`down, tree`Repr
    ensures tree.Valid() && fresh(tree.Repr - old(tree.Repr)) && SortedDown(tree.Value().down)
    ensures tree.Value() == old(tree.Value()).(down := tree.Value().down)
    ensures r.Got? ==> |r.rest| < |buf|
    ensures has ==> r.Got? && SubsFollow(r.rest, it, i + 1, rest) && tree.Value().down == RestoredSubs(it, i + 1)
    decreases |buf|, 1
  {
    hide Head, WrittenSubs, Written, AllSorted, SubtreeNameCmp, RestoredSubs, Starts, SubsFollow, SubOf;
    var name := CString(buf);
    ghost var sub, after := EMPTY, "";
    if has {
      SubStarts(buf, it, i, rest);
      LaterName(it, i);
      sub, after := it.down[i].tree.value, WrittenSubs(it, i + 1) + rest;
    }
    r := ReadOne(buf, sub, name, after);
    if !r.Got? {
      return;
    }
    ghost var was := tree.Value().down;
    var pos := tree.FindSubtree(name);
    ghost var grown := tree.Value().down;
    if has {
      GrowsAtEnd(was, grown, pos, name);
      RestoredNext(it, i);
    }
    SetKeepsSorted(grown, pos, r.it.Value());
    tree.Attach(pos, r.it);
  }

  /** The whole extension: what was written for a cache tree is read back, whatever follows it. */
  method CacheTreeRead(buffer: string, ghost it: Node, ghost rest: string) returns (r: Read)
    ensures Starts(buffer, it, "", rest) ==> Reads(r, it, rest)
    ensures r.Got? ==> r.it.Valid() && fresh(r.it.Repr)
  {
    hide Written, AllSorted, Complete, Head, WrittenSubs;
    if Starts(buffer, it, "", rest) {
      AfterName(buffer, it, "", rest);
    }
    if buffer != "" && buffer[0] != NUL {
      return Null;
    }
    r := ReadOne(buffer, it, "", rest);
  }

  // ---------------------------------------------------------------- the round trip

  /** Writing a cache tree and reading it back, whatever else is in the file behind it.  The writer dies of an
      unsorted list, and else everything is there again but the hashes of invalid nodes and the scratch marks. */
  method WriteThenRead(it: Tree, rest: string) returns (r: Read)
    requires it.Valid() && Complete(it.Value())
    ensures AllSorted(it.Value()) ==>
      r.Got? && r.it.Valid() && fresh(r.it.Repr) && r.it.Value() == Restored(it.Value()) && r.rest == rest
    ensures !AllSorted(it.Value()) ==> r == Die
  {
    hide Written, AllSorted, Complete, Restored;
    var written := WriteOne("", it, "");
    if written.None? {
      return Die;
    }
    assert "" + Written(it.Value(), "") == Written(it.Value(), "");
    r := CacheTreeRead(written.value + rest, it.Value(), rest);
  }

  /** What is read back is complete, in order, and written as the same bytes again. */
  lemma {:induction false} WrittenAgain(it: Node, path: string)
    requires Complete(it)
    ensures Complete(Restored(it)) && Written(Restored(it), path) == Written(it, path)
    ensures AllSorted(it) ==> AllSorted(Restored(it))
    decreases it
  {
    hide SubtreeNameCmp, Dec;
    var r := Restored(it);
    forall k | 0 <= k < |it.down|
      ensures r.down[k] == Sub(it.down[k].name, false, Some(Restored(it.down[k].tree.value)))
      ensures Complete(Restored(it.down[k].tree.value))
      ensures Written(Restored(it.down[k].tree.value), it.down[k].name)
           == Written(it.down[k].tree.value, it.down[k].name)
      ensures AllSorted(it.down[k].tree.value) ==> AllSorted(Restored(it.down[k].tree.value))
    {
      RestoredAt(it, |it.down|, k);
      WrittenAgain(it.down[k].tree.value, it.down[k].name);
    }
    SubsAgain(it, r, 0);
  }

  lemma {:induction false} RestoredAt(it: Node, i: nat, k: nat)
    requires Complete(it) && k < i <= |it.down|
    ensures RestoredSubs(it, i)[k] == Sub(it.down[k].name, false, Some(Restored(it.down[k].tree.value)))
    decreases i
  {
    if k < i - 1 { RestoredAt(it, i - 1, k); }
  }

  lemma {:induction false} SubsAgain(it: Node, r: Node, i: nat)
    requires Complete(it) && Complete(r) && |r.down| == |it.down| && i <= |it.down|
    requires forall k :: 0 <= k < |it.down| ==> r.down[k].name == it.down[k].name
    requires forall k :: 0 <= k < |it.down| ==>
      Written(r.down[k].tree.value, it.down[k].name) == Written(it.down[k].tree.value, it.down[k].name)
    ensures WrittenSubs(r, i) == WrittenSubs(it, i)
    decreases |it.down| - i
  {
    hide Written;
    if i < |it.down| { SubsAgain(it, r, i + 1); }
  }

  /** A cache that is true of an index is still true of it when it has been read back. */
  lemma {:induction false} StillValid(h: seq<Line> -> Sha, it: Node, idx: seq<Entry>, base: string)
    requires WfNames(idx) && Complete(it) && ValidFor(h, it, idx, base)
    ensures ValidFor(h, Restored(it), idx, base)
    decreases it
  {
    hide SubtreeNameCmp, Below, Lines;
    var r := Restored(it);
    forall k | 0 <= k < |it.down|
      ensures r.down[k].name == it.down[k].name && ValidSub(h, r.down[k], idx, base)
    {
      RestoredAt(it, |it.down|, k);
      assert ValidSub(h, it.down[k], idx, base);
      StillValid(h, it.down[k].tree.value, idx, SubBase(base, it.down[k].name));
    }
  }

  /** A cache with a valid and an invalid subdirectory, and the buffer it is written to. */
  lemma SomeTreeStarts(sha: Sha, sub: Sha, rest: string) returns (it: Node, buf: string)
    ensures it.entryCount == 3 && it.sha == sha && |it.down| == 2
    ensures it.down[0].tree == Some(Node(2, sub, [])) && it.down[1].tree == Some(EMPTY)
    ensures Starts(buf, it, "", rest)
  {
    it := Node(3, sha, [Sub("a", false, Some(Node(2, sub, []))), Sub("bc", false, Some(EMPTY))]);
    assert Complete(Node(2, sub, [])) && Complete(EMPTY) && Complete(it);
    assert AllSorted(Node(2, sub, [])) && AllSorted(EMPTY) && SortedDown(it.down);
    buf := Written(it, "") + rest;
  }
}
