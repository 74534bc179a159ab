/** What the tree objects of an index record: they give the index back (cache-tree.c:302-353). */
module CacheTreeObjects {
  import opened CacheTreeSpec

  /** The object is a tree, by the type in its mode. */
  predicate IsTree(mode: nat) {
    mode / 0x1000 == 4
  }

  /** Walking a tree object: its files by their full names, and for each tree line what the object named there holds,
      at most `depth` directories deep. */
  ghost function Walk(obj: Sha -> seq<Line>, lines: seq<Line>, base: string, depth: nat): seq<Entry>
    decreases depth, |lines|
  {
    if lines == [] then []
    else
      var l := lines[0];
      var here :=
        if !IsTree(l.mode) then [Entry(base + l.name, l.mode, l.sha)]
        else if depth == 0 then []
        else Walk(obj, obj(l.sha), base + l.name + "/", depth - 1);
      here + Walk(obj, lines[1..], base, depth)
  }

  predicate IsBase(base: string) {
    base == "" || base[|base| - 1] == '/'
  }

  /** The tree objects of the directories among `idx` can be read back. */
  ghost predicate Remembers(obj: Sha -> seq<Line>, h: seq<Line> -> Sha, idx: seq<Entry>)
    requires WfNames(idx)
  {
    forall i, j, base :: 0 <= i <= j <= |idx| && IsBase(base) && AllUnder(idx[i..j], base) ==>
      Remembered(obj, h, idx[i..j], base)
  }

  ghost predicate Remembered(obj: Sha -> seq<Line>, h: seq<Line> -> Sha, list: seq<Entry>, base: string)
    requires WfNames(list) && AllUnder(list, base)
  {
    obj(h(Lines(h, list, base))) == Lines(h, list, base)
  }

  /** Files, links and submodules have other types than trees. */
  predicate NoTrees(list: seq<Entry>) {
    forall k :: 0 <= k < |list| ==> !IsTree(list[k].mode)
  }

  /** No name goes more than `depth` characters beyond `base`. */
  predicate Shallow(list: seq<Entry>, base: string, depth: nat) {
    forall k :: 0 <= k < |list| ==> |list[k].name| <= |base| + depth
  }

  lemma PartOfPart(idx: seq<Entry>, i: nat, j: nat, a: nat, b: nat)
    requires i <= j <= |idx| && a <= b <= j - i
    ensures idx[i..j][a..b] == idx[i + a..i + b]
  {
    assert forall k :: 0 <= k < b - a ==> idx[i..j][a..b][k] == idx[i + a..i + b][k];
  }

  lemma PartRemembers(obj: Sha -> seq<Line>, h: seq<Line> -> Sha, idx: seq<Entry>, i: nat, j: nat)
    requires WfNames(idx) && Remembers(obj, h, idx) && i <= j <= |idx|
    ensures WfNames(idx[i..j]) && Remembers(obj, h, idx[i..j])
  {
    hide Remembered, Lines;
    var part := idx[i..j];
    forall a, b, base | 0 <= a <= b <= |part| && IsBase(base) && AllUnder(part[a..b], base)
      ensures WfNames(part[a..b]) && Remembered(obj, h, part[a..b], base)
    {
      PartOfPart(idx, i, j, a, b);
    }
  }

  /** The walk over the lines of a directory yields its entries, with names, modes and hashes, in order. */
  lemma {:induction false} LinesRebuild(obj: Sha -> seq<Line>, h: seq<Line> -> Sha, list: seq<Entry>, base: string,
                                        depth: nat)
    requires WfNames(list) && AllUnder(list, base) && Remembers(obj, h, list)
    requires NoTrees(list) && Shallow(list, base, depth)
    ensures Walk(obj, Lines(h, list, base), base, depth) == list
    decreases depth, |list|
  {
    hide Remembers, Under, Comp, IsDir, FirstSlash, Lead, Walk, IsTree;
    if list == [] {
      WalkNothing(obj, base, depth);
    } else {
      var e := list[0];
      var name := Comp(e, base);
      if IsDir(e, base) {
        RebuildRun(obj, h, list, base, depth);
      } else {
        PartRemembers(obj, h, list, 1, |list|);
        assert list[1..|list|] == list[1..];
        LinesRebuild(obj, h, list[1..], base, depth);
        WalkFile(obj, Line(e.mode, name, e.sha), Lines(h, list[1..], base), base, depth);
        FileName(e, base);
        assert list == [e] + list[1..];
      }
    }
  }

  /** A run of entries of one subdirectory, and the rest. */
  lemma {:induction false} RebuildRun(obj: Sha -> seq<Line>, h: seq<Line> -> Sha, list: seq<Entry>, base: string,
                                      depth: nat)
    requires WfNames(list) && AllUnder(list, base) && Remembers(obj, h, list) && list != [] && IsDir(list[0], base)
    requires NoTrees(list) && Shallow(list, base, depth)
    ensures Walk(obj, Lines(h, list, base), base, depth) == list
    decreases depth, |list|, 0
  {
    hide Remembers, Under, Comp, IsDir, FirstSlash, Lead, Walk, IsTree, SubBase, Lines;
    var e := list[0];
    var name := Comp(e, base);
    var sub := SubBase(base, name);
    DirIsUnder(e, base);
    var n := Lead(list, sub);
    Deeper(e, base, name);
    PartRemembers(obj, h, list, 0, n);
    PartRemembers(obj, h, list, n, |list|);
    assert list[0..n] == list[..n] && list[n..|list|] == list[n..];
    assert list[..n][0] == e && n >= 1 by { LeadStarts(list, sub); }
    LinesRebuild(obj, h, list[n..], base, depth);
    LinesRebuild(obj, h, list[..n], sub, depth - 1);
    SubIsBase(base, name);
    ReadBack(obj, h, list[..n], sub);
    DirLines(h, list, base);
    WalkTree(obj, Line(S_IFDIR, name, h(Lines(h, list[..n], sub))), Lines(h, list[n..], base), base, depth);
    assert list == list[..n] + list[n..];
  }

  lemma SubIsBase(base: string, name: string)
    ensures IsBase(SubBase(base, name))
  {
  }

  lemma LeadStarts(list: seq<Entry>, base: string)
    requires list != [] && Under(list[0], base)
    ensures Lead(list, base) >= 1
  {
  }

  lemma DirLines(h: seq<Line> -> Sha, list: seq<Entry>, base: string)
    requires WfNames(list) && AllUnder(list, base) && list != [] && IsDir(list[0], base)
    ensures
      var name := Comp(list[0], base);
      var sub := SubBase(base, name);
      var n := Lead(list, sub);
      && AllUnder(list[..n], sub) && AllUnder(list[n..], base)
      && Lines(h, list, base) == [Line(S_IFDIR, name, h(Lines(h, list[..n], sub)))] + Lines(h, list[n..], base)
  {
    hide Under, Comp, IsDir, Lead, SubBase;
    DirIsUnder(list[0], base);
  }

  lemma WalkNothing(obj: Sha -> seq<Line>, base: string, depth: nat)
    ensures Walk(obj, [], base, depth) == []
  {
  }

  lemma WalkFile(obj: Sha -> seq<Line>, l: Line, rest: seq<Line>, base: string, depth: nat)
    requires !IsTree(l.mode)
    ensures Walk(obj, [l] + rest, base, depth) == [Entry(base + l.name, l.mode, l.sha)] + Walk(obj, rest, base, depth)
  {
    assert ([l] + rest)[1..] == rest;
  }

  lemma WalkTree(obj: Sha -> seq<Line>, l: Line, rest: seq<Line>, base: string, depth: nat)
    requires l.mode == S_IFDIR && depth > 0
    ensures Walk(obj, [l] + rest, base, depth)
         == Walk(obj, obj(l.sha), SubBase(base, l.name), depth - 1) + Walk(obj, rest, base, depth)
  {
    assert ([l] + rest)[1..] == rest;
  }

  lemma FileName(e: Entry, base: string)
    requires Under(e, base) && !IsDir(e, base)
    ensures base + Comp(e, base) == e.name
  {
    assert e.name == base + e.name[|base|..];
  }

  lemma Deeper(e: Entry, base: string, name: string)
    requires Under(e, base) && Under(e, SubBase(base, name))
    ensures |base| < |SubBase(base, name)| < |e.name|
  {
  }

  lemma ReadBack(obj: Sha -> seq<Line>, h: seq<Line> -> Sha, list: seq<Entry>, base: string)
    requires WfNames(list) && AllUnder(list, base) && Remembers(obj, h, list) && IsBase(base)
    ensures obj(h(Lines(h, list, base))) == Lines(h, list, base)
  {
    assert list[0..|list|] == list;
    assert Remembered(obj, h, list[0..|list|], base);
  }

  /** From a directory's hash, the objects behind it give back the index below it. */
  lemma TreeRebuilds(obj: Sha -> seq<Line>, h: seq<Line> -> Sha, idx: seq<Entry>, base: string, depth: nat)
    requires WfNames(idx) && IsBase(base) && Remembers(obj, h, Below(idx, base))
    requires NoTrees(Below(idx, base)) && Shallow(Below(idx, base), base, depth)
    ensures Walk(obj, obj(TreeHash(h, idx, base)), base, depth) == Below(idx, base)
  {
    hide Remembers, Lines, Below, Walk;
    ReadBack(obj, h, Below(idx, base), base);
    LinesRebuild(obj, h, Below(idx, base), base, depth);
  }

  const A_SHA := Sha("aaaaaaaaaaaaaaaaaaaa")
  const B_SHA := Sha("bbbbbbbbbbbbbbbbbbbb")
  const C_SHA := Sha("cccccccccccccccccccc")

  function OneHash(lines: seq<Line>): Sha {
    if lines == [] then A_SHA else if lines[0].name == "f" then B_SHA else C_SHA
  }

  function OneObject(file: Line, sha: Sha): seq<Line> {
    if sha == A_SHA then [] else if sha == B_SHA then [file] else [Line(0x4000, "d", B_SHA)]
  }

  /** One file in a directory, with a hash and objects for it: the root holds the directory as a tree. */
  lemma OneFileRebuilds(sha: Sha) returns (idx: seq<Entry>, obj: Sha -> seq<Line>)
    ensures idx == [Entry("d/f", 0x81A4, sha)] && WfNames(idx) && Remembers(obj, OneHash, idx)
    ensures obj(TreeHash(OneHash, idx, "")) == [Line(0x4000, "d", OneHash([Line(0x81A4, "f", sha)]))]
  {
    hide Lines, OneHash, OneObject, Under, Below;
    var e, file := Entry("d/f", 0x81A4, sha), Line(0x81A4, "f", sha);
    idx := [e];
    obj := (s: Sha) => OneObject(file, s);
    OneFileLines(OneHash, e);
    OneHashes(file);
    NoLines(OneHash);
    forall i, j, base | 0 <= i <= j <= |idx| && IsBase(base) && AllUnder(idx[i..j], base)
      ensures WfNames(idx[i..j]) && Remembered(obj, OneHash, idx[i..j], base)
    {
      if i < j {
        assert idx[i..j] == [e] && Under(idx[i..j][0], base);
        BasesOf(e, base);
      }
    }
    BelowAll(idx, "");
  }

  lemma OneHashes(file: Line)
    requires file.name == "f"
    ensures OneObject(file, OneHash([])) == [] && OneObject(file, OneHash([file])) == [file]
    ensures
      var root := [Line(0x4000, "d", OneHash([file]))];
      OneObject(file, OneHash(root)) == root
  {
    assert A_SHA.bytes[0] == 'a' && B_SHA.bytes[0] == 'b' && C_SHA.bytes[0] == 'c';
  }

  lemma NoLines(h: seq<Line> -> Sha)
    ensures forall base :: Lines(h, [], base) == []
  {
  }

  lemma BasesOf(e: Entry, base: string)
    requires e.name == "d/f" && IsBase(base) && Under(e, base)
    ensures base == "" || base == "d/"
  {
    assert base == e.name[..|base|];
  }

  lemma OneFileLines(h: seq<Line> -> Sha, e: Entry)
    requires e.name == "d/f"
    ensures WfNames([e]) && AllUnder([e], "") && AllUnder([e], "d/")
    ensures Lines(h, [e], "d/") == [Line(e.mode, "f", e.sha)]
    ensures Lines(h, [e], "") == [Line(S_IFDIR, "d", h([Line(e.mode, "f", e.sha)]))]
  {
    var name := "d/f";
    assert name[..0] == "" && name[..2] == "d/";
    assert name[2..] == "f" && FirstSlash("f") == 1 by { assert FirstSlash("f"[1..]) == 0; }
    assert "f"[..1] == "f";
    assert name[0..] == name && FirstSlash(name) == 1 by { assert FirstSlash(name[1..]) == 0; }
    assert name[..1] == "d";
    assert SubBase("", "d") == "d/";
    assert Lead([e], "d/") == 1 by { assert Lead([e][1..], "d/") == 0; }
    assert [e][..1] == [e] && [e][1..] == [];
  }
}
