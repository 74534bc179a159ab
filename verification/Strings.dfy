/** C string order. */
module Strings {

  /** strcmp: the sign of the first difference; a proper prefix comes first. */
  function StrCmp(a: string, b: string): int {
    if a == "" then if b == "" then 0 else -1
    else if b == "" then 1
    else if a[0] != b[0] then a[0] as int - b[0] as int
    else StrCmp(a[1..], b[1..])
  }

  lemma {:induction false} CmpFacts(a: string, b: string)
    ensures StrCmp(a, b) == 0 <==> a == b
    ensures StrCmp(a, b) < 0 <==> StrCmp(b, a) > 0
  {
    if a != "" && b != "" && a[0] == b[0] {
      CmpFacts(a[1..], b[1..]);
      assert a == [a[0]] + a[1..] && b == [b[0]] + b[1..];
    }
  }

  lemma {:induction false} CmpTrans(a: string, b: string, c: string)
    requires StrCmp(a, b) < 0 && StrCmp(b, c) < 0
    ensures StrCmp(a, c) < 0
  {
    if a != "" && c != "" && a[0] == b[0] == c[0] { CmpTrans(a[1..], b[1..], c[1..]); }
  }

  /** Paths strictly ascending. */
  ghost predicate Ascending(paths: seq<string>) {
    forall i, j :: 0 <= i < j < |paths| ==> StrCmp(paths[i], paths[j]) < 0
  }

  lemma AscendingDistinct(paths: seq<string>, i: nat, j: nat)
    requires Ascending(paths) && i < |paths| && j < |paths| && paths[i] == paths[j]
    ensures i == j
  {
    CmpFacts(paths[i], paths[j]);
    CmpFacts(paths[j], paths[i]);
  }

  /** `path` belongs at `at`: exactly the paths before it are smaller. */
  ghost predicate Between(paths: seq<string>, path: string, at: nat) {
    && (forall k :: 0 <= k < at && k < |paths| ==> StrCmp(paths[k], path) < 0)
    && (forall k :: at <= k < |paths| ==> StrCmp(path, paths[k]) < 0)
  }

  lemma BetweenAbsent(paths: seq<string>, path: string, at: nat)
    requires Between(paths, path, at)
    ensures path !in paths
  {
    CmpFacts(path, path);
  }

  lemma InsertAscends(paths: seq<string>, path: string, at: nat)
    requires Ascending(paths) && at <= |paths| && Between(paths, path, at)
    ensures Ascending(paths[..at] + [path] + paths[at..])
  {
    hide StrCmp;
    var r := paths[..at] + [path] + paths[at..];
    assert forall i :: 0 <= i < |r| ==> r[i] == if i < at then paths[i] else if i == at then path else paths[i - 1];
  }
}
