/** What the cached directory hashes stand for: tree objects of the index (cache-tree.c:240-370). */
module CacheTreeSpec {

  const NULS := "\0\0\0\0\0\0\0\0\0\0\0\0\0\0\0\0\0\0\0\0"

  type Bytes20 = s: string | |s| == 20 witness NULS

  /** A hash is its 20 bytes. */
  datatype Sha = Sha(bytes: Bytes20)

  const NULL_SHA := Sha(NULS)

  datatype Entry = Entry(name: string, mode: nat, sha: Sha)

  /** One line of a tree object. */
  datatype Line = Line(mode: nat, name: string, sha: Sha)

  const S_IFDIR := 0x4000
  const S_IFGITLINK := 0xE000

  /** Index names are not empty and do not end in a slash. */
  ghost predicate WfNames(list: seq<Entry>) {
    forall i :: 0 <= i < |list| ==> list[i].name != "" && list[i].name[|list[i].name| - 1] != '/'
  }

  /** `e` lies below the directory whose prefix, final slash included, is `base`. */
  predicate Under(e: Entry, base: string) {
    base < e.name
  }

  function FirstSlash(s: string): (n: nat)
    ensures n <= |s| && (n < |s| ==> s[n] == '/') && forall k :: 0 <= k < n ==> s[k] != '/'
  {
    if s == "" || s[0] == '/' then 0 else 1 + FirstSlash(s[1..])
  }

  /** The first path component below `base`. */
  function Comp(e: Entry, base: string): string
    requires Under(e, base)
  {
    e.name[|base|..][..FirstSlash(e.name[|base|..])]
  }

  predicate IsDir(e: Entry, base: string)
    requires Under(e, base)
  {
    |base| + FirstSlash(e.name[|base|..]) < |e.name|
  }

  function SubBase(base: string, name: string): string {
    base + name + "/"
  }

  /** How many leading entries lie below `base`. */
  function Lead(list: seq<Entry>, base: string): (n: nat)
    ensures n <= |list| && (forall k :: 0 <= k < n ==> Under(list[k], base)) && (n < |list| ==> !Under(list[n], base))
  {
    if list == [] || !Under(list[0], base) then 0 else 1 + Lead(list[1..], base)
  }

  lemma DirIsUnder(e: Entry, base: string)
    requires Under(e, base) && IsDir(e, base) && e.name[|e.name| - 1] != '/'
    ensures Under(e, SubBase(base, Comp(e, base)))
  {
    var n := FirstSlash(e.name[|base|..]);
    assert e.name[|base| + n] == e.name[|base|..][n] == '/';
    assert e.name[..|base| + n + 1] == SubBase(base, Comp(e, base));
  }

  /** Being below a subdirectory of `base` fixes the first component. */
  lemma UnderFixesComp(e: Entry, base: string, name: string)
    requires Under(e, SubBase(base, name)) && '/' !in name
    ensures Under(e, base) && IsDir(e, base) && Comp(e, base) == name
  {
    var rest := e.name[|base|..];
    assert e.name[..|base| + |name| + 1] == SubBase(base, name);
    assert forall k :: 0 <= k < |name| ==> rest[k] == e.name[..|base| + |name| + 1][|base| + k] == name[k];
    assert rest[|name|] == e.name[..|base| + |name| + 1][|base| + |name|] == '/';
    var n := FirstSlash(rest);
    assert n == |name|;
    assert rest[..n] == name;
  }

  lemma CompHasNoSlash(e: Entry, base: string)
    requires Under(e, base)
    ensures '/' !in Comp(e, base)
  {
  }

  // ---------------------------------------------------------------- the tree object, from scratch

  ghost predicate AllUnder(list: seq<Entry>, base: string) {
    forall i :: 0 <= i < |list| ==> Under(list[i], base)
  }

  /** The lines of the tree object of the directory `base` holding exactly `list`. */
  ghost function Lines(h: seq<Line> -> Sha, list: seq<Entry>, base: string): seq<Line>
    requires WfNames(list) && AllUnder(list, base)
    decreases |list|, if list == [] then 0 else |list[0].name| - |base|
  {
    if list == [] then []
    else
      var e := list[0];
      var name := Comp(e, base);
      if !IsDir(e, base) then [Line(e.mode, name, e.sha)] + Lines(h, list[1..], base)
      else
        DirIsUnder(e, base);
        var sub := SubBase(base, name);
        var n := Lead(list, sub);
        [Line(S_IFDIR, name, h(Lines(h, list[..n], sub)))] + Lines(h, list[n..], base)
  }

  /** The index entries below `base`. */
  ghost function Below(idx: seq<Entry>, base: string): (r: seq<Entry>)
    requires WfNames(idx)
    ensures WfNames(r) && AllUnder(r, base)
  {
    if idx == [] then []
    else (if Under(idx[0], base) then [idx[0]] else []) + Below(idx[1..], base)
  }

  ghost function TreeHash(h: seq<Line> -> Sha, idx: seq<Entry>, base: string): Sha
    requires WfNames(idx)
  {
    h(Lines(h, Below(idx, base), base))
  }

  lemma WfConcat(a: seq<Entry>, b: seq<Entry>)
    requires WfNames(a) && WfNames(b)
    ensures WfNames(a + b)
  {
    assert forall i :: 0 <= i < |a + b| ==> (a + b)[i] == if i < |a| then a[i] else b[i - |a|];
  }

  lemma {:induction false} BelowConcat(a: seq<Entry>, b: seq<Entry>, base: string)
    requires WfNames(a) && WfNames(b)
    ensures WfNames(a + b) && Below(a + b, base) == Below(a, base) + Below(b, base)
  {
    hide Under, WfNames, Below;
    WfConcat(a, b);
    if a == [] {
      NoneBelow(base);
      assert a + b == b && [] + Below(b, base) == Below(b, base);
    } else {
      WfTail(a);
      assert (a + b)[0] == a[0] && (a + b)[1..] == a[1..] + b;
      BelowConcat(a[1..], b, base);
      var head := if Under(a[0], base) then [a[0]] else [];
      BelowStep(a, base);
      BelowStep(a + b, base);
      assert head + (Below(a[1..], base) + Below(b, base)) == head + Below(a[1..], base) + Below(b, base);
    }
  }

  lemma NoneBelow(base: string)
    ensures WfNames([]) && Below([], base) == []
  {
  }

  lemma BelowStep(idx: seq<Entry>, base: string)
    requires WfNames(idx) && idx != []
    ensures WfNames(idx[1..])
    ensures Below(idx, base) == (if Under(idx[0], base) then [idx[0]] else []) + Below(idx[1..], base)
  {
    WfTail(idx);
  }

  lemma WfTail(a: seq<Entry>)
    requires WfNames(a) && a != []
    ensures WfNames(a[1..])
  {
  }

  lemma {:induction false} BelowAll(a: seq<Entry>, base: string)
    requires WfNames(a) && AllUnder(a, base)
    ensures Below(a, base) == a
  {
    if a != [] { BelowAll(a[1..], base); }
  }

  lemma {:induction false} BelowNone(a: seq<Entry>, base: string)
    requires WfNames(a) && forall i :: 0 <= i < |a| ==> !Under(a[i], base)
    ensures Below(a, base) == []
  {
    if a != [] { BelowNone(a[1..], base); }
  }

  /** Filtering for a subdirectory can be done on what is below the directory. */
  lemma {:induction false} BelowBelow(idx: seq<Entry>, base: string, sub: string)
    requires WfNames(idx) && base <= sub
    ensures Below(Below(idx, base), sub) == Below(idx, sub)
  {
    if idx != [] {
      BelowBelow(idx[1..], base, sub);
      var head := if Under(idx[0], base) then [idx[0]] else [];
      BelowConcat(head, Below(idx[1..], base), sub);
    }
  }

  // ---------------------------------------------------------------- sorted indexes are grouped

  /** Byte order of names, a proper prefix first. */
  predicate Before(a: string, b: string) {
    if a == "" then b != ""
    else b != "" && (a[0] < b[0] || (a[0] == b[0] && Before(a[1..], b[1..])))
  }

  ghost predicate Sorted(idx: seq<Entry>) {
    forall i, j :: 0 <= i < j < |idx| ==> Before(idx[i].name, idx[j].name)
  }

  /** Whatever sorts between two names with a common prefix has that prefix. */
  lemma {:induction false} BetweenShares(a: string, b: string, c: string, base: string)
    requires Before(a, b) && Before(b, c) && base <= a && base <= c
    ensures base <= b
  {
    if base != "" {
      assert base[0] == a[0] == c[0];
      assert base[1..] <= a[1..] && base[1..] <= c[1..];
      assert b[0] == base[0];
      BetweenShares(a[1..], b[1..], c[1..], base[1..]);
      assert b == [b[0]] + b[1..] && base == [base[0]] + base[1..];
    }
  }

  /** Entries below a directory are neighbours. */
  lemma Grouped(idx: seq<Entry>, i: nat, j: nat, k: nat, base: string)
    requires Sorted(idx) && i < j < k < |idx| && Under(idx[i], base) && Under(idx[k], base)
    ensures Under(idx[j], base)
  {
    BetweenShares(idx[i].name, idx[j].name, idx[k].name, base);
    if idx[j].name == base { PrefixFirst(base, idx[i].name); NotBothWays(idx[i].name, base); }
  }

  lemma {:induction false} PrefixFirst(a: string, b: string)
    requires a < b
    ensures Before(a, b)
  {
    if a != "" {
      assert a[0] == b[0] && a[1..] < b[1..];
      PrefixFirst(a[1..], b[1..]);
    }
  }

  lemma {:induction false} NotBothWays(a: string, b: string)
    ensures !(Before(a, b) && Before(b, a))
  {
    if a != "" && b != "" { NotBothWays(a[1..], b[1..]); }
  }
}
