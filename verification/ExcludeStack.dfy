/** The per-directory exclude stack with its shared path buffer (dir.c:434-496). */
module ExcludeStack {

  const PATH_MAX := 4096

  /** A pattern and how much of the shared buffer names the directory it comes from. */
  datatype Exclude<P> = Exclude(pattern: P, baselen: nat)

  datatype Frame = Frame(baselen: nat, excludeIx: nat)

  // ---------------------------------------------------------------- directories

  /** The root, or a path ending in a slash, without empty components. */
  ghost predicate IsDir(d: string) {
    d == "" || (d[|d| - 1] == '/' && d[0] != '/' && forall k :: 0 < k < |d| && d[k] == '/' ==> d[k - 1] != '/')
  }

  /** One past the last slash within the first `n` characters. */
  function AfterSlash(d: string, n: nat): (m: nat)
    requires n <= |d|
    ensures m <= n && (m > 0 ==> d[m - 1] == '/') && forall k :: m <= k < n ==> d[k] != '/'
  {
    if n == 0 || d[n - 1] == '/' then n else AfterSlash(d, n - 1)
  }

  /** The directory a non-root directory is in. */
  function Parent(d: string): (p: string)
    requires d != ""
    ensures |p| < |d| && p <= d
  {
    d[..AfterSlash(d, |d| - 1)]
  }

  lemma ParentIsDir(d: string)
    requires IsDir(d) && d != ""
    ensures IsDir(Parent(d))
  {
  }

  /** `d` is the next directory below `p` when no slash comes in between. */
  lemma ParentIs(d: string, n: nat)
    requires IsDir(d) && n < |d| && (n == 0 || d[n - 1] == '/') && forall k :: n <= k < |d| - 1 ==> d[k] != '/'
    ensures Parent(d) == d[..n]
  {
    hide AfterSlash;
    var m := AfterSlash(d, |d| - 1);
    assert m == n;
  }

  lemma PrefixIsDir(d: string, n: nat)
    requires IsDir(d) && n <= |d| && (n == 0 || d[n - 1] == '/')
    ensures IsDir(d[..n])
  {
  }

  // ---------------------------------------------------------------- from scratch

  /** The patterns of a file, for a directory whose name takes `baselen` characters. */
  function FromFile<P>(rules: string -> seq<P>, fname: string, baselen: nat): (r: seq<Exclude<P>>)
    ensures forall x :: x in r ==> x.baselen == baselen && x.pattern in rules(fname)
  {
    var ps := rules(fname);
    seq(|ps|, i requires 0 <= i < |ps| => Exclude(ps[i], baselen))
  }

  /** The patterns of all directories from the root to `d`. */
  function Rebuilt<P>(rules: string -> seq<P>, perDir: string, d: string): seq<Exclude<P>>
    decreases |d|
  {
    (if d == "" then [] else Rebuilt(rules, perDir, Parent(d))) + FromFile(rules, d + perDir, |d|)
  }

  function Frames<P>(rules: string -> seq<P>, perDir: string, d: string): (r: seq<Frame>)
    ensures r != [] && r[|r| - 1].baselen == |d|
    decreases |d|
  {
    if d == "" then [Frame(0, 0)]
    else Frames(rules, perDir, Parent(d)) + [Frame(|d|, |Rebuilt(rules, perDir, Parent(d))|)]
  }

  lemma LastFrame<P>(rules: string -> seq<P>, perDir: string, d: string)
    ensures d != "" ==>
      Frames(rules, perDir, d) == Frames(rules, perDir, Parent(d)) + [Frame(|d|, |Rebuilt(rules, perDir, Parent(d))|)]
    ensures d != "" ==>
      Rebuilt(rules, perDir, d) == Rebuilt(rules, perDir, Parent(d)) + FromFile(rules, d + perDir, |d|)
    ensures d == "" ==>
      Frames(rules, perDir, d) == [Frame(0, 0)] && Rebuilt(rules, perDir, d) == FromFile(rules, d + perDir, 0)
  {
  }

  /** Every pattern in use was read from the directory its part of the path names. */
  lemma {:induction false} ReadWhereItSays<P>(rules: string -> seq<P>, perDir: string, d: string, x: Exclude<P>)
    requires x in Rebuilt(rules, perDir, d)
    ensures x.baselen <= |d| && x.pattern in rules(d[..x.baselen] + perDir)
    decreases |d|
  {
    if x in FromFile(rules, d + perDir, |d|) {
      assert d[..|d|] == d;
    } else {
      var p := Parent(d);
      ReadWhereItSays(rules, perDir, p, x);
      assert p[..x.baselen] == d[..x.baselen];
    }
  }

  /** The last part of a list is the patterns of one file, all of them and in their order. */
  ghost predicate EndsWith<P>(all: seq<Exclude<P>>, own: seq<P>, baselen: nat) {
    |own| <= |all| && forall k :: 0 <= k < |own| ==> all[|all| - |own| + k] == Exclude(own[k], baselen)
  }

  /** A directory's own patterns come last, and the root has no others. */
  lemma {:induction false} OwnLast<P>(rules: string -> seq<P>, perDir: string, d: string)
    ensures EndsWith(Rebuilt(rules, perDir, d), rules(d + perDir), |d|)
    ensures d == "" ==> |Rebuilt(rules, perDir, d)| == |rules(d + perDir)|
  {
    hide Rebuilt, FromFile, EndsWith;
    LastFrame(rules, perDir, d);
    FileIs(rules, d + perDir, |d|);
    var own := FromFile(rules, d + perDir, |d|);
    if d == "" {
      assert [] + own == own;
      EndIsTail([], own, rules(d + perDir), |d|);
    } else {
      EndIsTail(Rebuilt(rules, perDir, Parent(d)), own, rules(d + perDir), |d|);
    }
  }

  lemma EndIsTail<P>(a: seq<Exclude<P>>, b: seq<Exclude<P>>, own: seq<P>, baselen: nat)
    requires |b| == |own| && forall k :: 0 <= k < |own| ==> b[k] == Exclude(own[k], baselen)
    ensures EndsWith(a + b, own, baselen)
  {
  }

  /** The patterns of the directories further out come before, as they are for those directories; and none are
      between a directory's own patterns and those of the directory it is in. */
  lemma {:induction false} OuterFirst<P>(rules: string -> seq<P>, perDir: string, d: string, n: nat)
    requires IsDir(d) && n <= |d| && (n == 0 || d[n - 1] == '/')
    ensures Rebuilt(rules, perDir, d[..n]) <= Rebuilt(rules, perDir, d)
    ensures n < |d| && (forall k :: n <= k < |d| - 1 ==> d[k] != '/') ==>
      |Rebuilt(rules, perDir, d)| == |Rebuilt(rules, perDir, d[..n])| + |rules(d + perDir)|
    decreases |d|
  {
    hide FromFile, AfterSlash;
    if n < |d| {
      var p := Parent(d);
      ParentIsDir(d);
      assert n <= |p| by { if n > 0 { SlashInParent(d, n); } }
      assert p[..n] == d[..n];
      OuterFirst(rules, perDir, p, n);
      FileIs(rules, d + perDir, |d|);
      if forall k :: n <= k < |d| - 1 ==> d[k] != '/' { ParentIs(d, n); }
    } else {
      assert d[..n] == d;
    }
  }

  lemma FileIs<P>(rules: string -> seq<P>, fname: string, baselen: nat)
    ensures var r, own := FromFile(rules, fname, baselen), rules(fname);
      |r| == |own| && forall k :: 0 <= k < |own| ==> r[k] == Exclude(own[k], baselen)
  {
  }

  lemma SlashInParent(d: string, n: nat)
    requires 0 < n < |d| && d[n - 1] == '/'
    ensures n <= |Parent(d)|
  {
    hide AfterSlash;
    var m := AfterSlash(d, |d| - 1);
    assert forall k :: m <= k < |d| - 1 ==> d[k] != '/';
  }

  // ---------------------------------------------------------------- the stack

  class Excludes<P> {
    const rules: string -> seq<P>
    const perDir: string
    var stack: seq<Frame>
    var list: seq<Exclude<P>>
    const basebuf: array<char>
    /** The directory the stack is for; none before the first use. */
    ghost var cur: string

    constructor (rules: string -> seq<P>, perDir: string)
      ensures Valid() && this.rules == rules && this.perDir == perDir && fresh(basebuf)
    {
      this.rules, this.perDir := rules, perDir;
      stack, list, cur := [], [], "";
      basebuf := new char[PATH_MAX](_ => '\0');
    }

    ghost predicate Valid()
      reads this, basebuf
    {
      && basebuf.Length == PATH_MAX
      && if stack == [] then list == []
         else Holds(cur)
    }

    /** Stack, list and buffer are those of directory `d`. */
    ghost predicate Holds(d: string)
      reads this, basebuf
    {
      && IsDir(d) && |d| + |perDir| < PATH_MAX == basebuf.Length
      && stack == Frames(rules, perDir, d) && list == Rebuilt(rules, perDir, d)
      && basebuf[..|d|] == d
    }

    /** Dropping the innermost directory. */
    method Pop()
      requires stack != [] && Holds(cur) && cur != ""
      modifies this`stack, this`list, this`cur
      ensures stack != [] && Holds(cur) && cur == Parent(old(cur))
    {
      hide Frames, Rebuilt, IsDir, FromFile;
      ParentIsDir(cur);
      LastFrame(rules, perDir, cur);
      ghost var p := Parent(cur);
      ghost var rebuilt := Rebuilt(rules, perDir, p);
      var top := stack[|stack| - 1];
      stack := stack[..|stack| - 1];
      while top.excludeIx < |list|
        invariant top.excludeIx == |rebuilt| <= |list| && rebuilt <= list
        invariant stack == Frames(rules, perDir, p) && cur == old(cur)
      {
        list := list[..|list| - 1];
      }
      assert list == rebuilt;
      assert basebuf[..|p|] == basebuf[..|cur|][..|p|];
      cur := p;
    }

    /** Copies characters into the buffer. */
    method Put(at: nat, s: string)
      requires at + |s| <= basebuf.Length
      modifies basebuf
      ensures basebuf[..at] == old(basebuf[..at]) && basebuf[at..at + |s|] == s
    {
      for i := 0 to |s|
        invariant basebuf[..at] == old(basebuf[..at]) && basebuf[at..at + i] == s[..i]
      {
        basebuf[at + i] := s[i];
      }
    }

    /** Reading the patterns of the next directory on the way to `base`. */
    method Push(base: string, current: nat, next: nat)
      requires basebuf.Length == PATH_MAX && current <= next <= |base| && next + |perDir| < PATH_MAX
      requires IsDir(base[..next])
      requires if stack == [] then list == [] && current == next == 0
               else Holds(cur) && cur == base[..current] && current < next && Parent(base[..next]) == cur
      modifies this`stack, this`list, this`cur, basebuf
      ensures stack != [] && Holds(cur) && cur == base[..next]
    {
      hide Frames, Rebuilt, IsDir, FromFile;
      ghost var d := base[..next];
      LastFrame(rules, perDir, d);
      var top := Frame(next, |list|);
      Put(current, base[current..next]);
      assert basebuf[..next] == basebuf[..current] + basebuf[current..next];
      assert d == base[..current] + base[current..next];
      Put(next, perDir + "\0");
      assert basebuf[next..next + |perDir|] == basebuf[next..next + |perDir| + 1][..|perDir|];
      var fname := basebuf[..next + |perDir|];
      assert fname == basebuf[..next] + basebuf[next..next + |perDir|] == d + perDir;
      list := list + FromFile(rules, fname, next);
      stack := stack + [top];
      cur := d;
    }

    /** One past the next slash after `current`. */
    method NextSlash(base: string, current: nat, baselen: nat) returns (next: nat)
      requires current < baselen <= |base| && base[baselen - 1] == '/' && base[current] != '/'
      ensures current < next <= baselen && base[next - 1] == '/'
      ensures forall k :: current <= k < next - 1 ==> base[k] != '/'
    {
      next := current + 1;
      while base[next] != '/'
        invariant current < next < baselen && forall k :: current <= k < next ==> base[k] != '/'
        decreases baselen - next
      {
        next := next + 1;
      }
      next := next + 1;
    }

    /** Leaving what is not on the way to `base`. */
    method PopToPrefix(base: string, baselen: nat)
      requires Valid() && baselen <= |base|
      modifies this`stack, this`list, this`cur
      ensures Valid() && (stack != [] ==> cur <= base[..baselen])
    {
      hide Rebuilt, IsDir;
      while stack != []
        invariant Valid()
        decreases |cur|, |stack|
      {
        var n := stack[|stack| - 1].baselen;
        assert basebuf[..0] == base[..0];
        if n <= baselen && basebuf[..n] == base[..n] {
          assert base[..baselen][..n] == base[..n];
          break;
        }
        Pop();
      }
    }

    /** Making the stack that of the directory `base[..baselen]`.  When the name of its pattern file would be too
        long nothing is done, and the stack stays that of the directory before. */
    method PrepExclude(base: string, baselen: nat)
      requires Valid() && baselen <= |base| && IsDir(base[..baselen])
      modifies this`stack, this`list, this`cur, basebuf
      ensures Valid()
      ensures baselen + |perDir| >= 4096 ==>
        stack == old(stack) && list == old(list) && basebuf[..] == old(basebuf[..])
      ensures baselen + |perDir| < 4096 ==>
        stack != [] && list == Rebuilt(rules, perDir, base[..baselen])
        && basebuf[..baselen + 1] == base[..baselen] + "\0"
    {
      hide Rebuilt, IsDir, Frames;
      if baselen + |perDir| >= PATH_MAX {
        return;
      }
      PopToPrefix(base, baselen);
      ghost var d := base[..baselen];
      if stack == [] {
        PrefixIsDir(d, 0);
        assert base[..0] == d[..0];
        Push(base, 0, 0);
      }
      var current := stack[|stack| - 1].baselen;
      assert cur == base[..current] by { assert d[..current] == base[..current]; }
      while current < baselen
        invariant current <= baselen && stack != [] && Holds(cur) && cur == base[..current]
      {
        assert d[..current] == base[..current];
        DirSlashes(d, current);
        assert forall k :: 0 <= k < baselen ==> d[k] == base[k];
        var next := NextSlash(base, current, baselen);
        PrefixIsDir(d, next);
        assert d[..next] == base[..next] && base[..next][..current] == base[..current];
        ParentIs(base[..next], current);
        Push(base, current, next);
        current := next;
      }
      basebuf[baselen] := '\0';
      assert basebuf[..baselen + 1] == basebuf[..baselen] + "\0";
    }

    lemma DirSlashes(d: string, current: nat)
      requires IsDir(d) && current < |d| && IsDir(d[..current])
      ensures d[|d| - 1] == '/' && d[current] != '/' && (current == 0 || d[current - 1] == '/')
    {
    }
  }
}
