/** Collecting the attributes of a path over an incrementally maintained stack of attribute files
    (attr.c:543-637, 639-745). */
module AttrCollect {
  import opened Common
  import opened AttrSpec

  // ---------------------------------------------------------------- which files apply to a path

  /** The position of the last slash, or 0. */
  function DirLen(path: string): (n: nat)
    ensures n == 0 || (n < |path| && path[n] == '/')
    ensures n <= |path| && forall k :: n < k < |path| ==> path[k] != '/'
  {
    if path == [] then 0
    else if path[|path| - 1] == '/' then |path| - 1
    else DirLen(path[..|path| - 1])
  }

  /** The attribute files of the directories along `path` up to position `n`, deepest first, the root last. */
  ghost function DirElems(files: string -> seq<Rule>, path: string, n: nat): (r: seq<Elem>)
    requires n == 0 || n < |path|
    ensures r != []
  {
    if n == 0 then [Elem(Some(""), files(""))]
    else (if path[n] == '/' then [Elem(Some(path[..n]), files(path[..n]))] else []) + DirElems(files, path, n - 1)
  }

  predicate AtDir(path: string, n: nat) {
    n == 0 || (n < |path| && path[n] == '/')
  }

  /** `path` and `q` have the directory up to `n` in common. */
  predicate SharedDir(path: string, q: string, n: nat) {
    n <= DirLen(path) && n <= DirLen(q) && AtDir(path, n) && AtDir(q, n) && path[..n] == q[..n]
  }

  lemma {:induction false} SameDirs(files: string -> seq<Rule>, p: string, q: string, n: nat)
    requires AtDir(p, n) && AtDir(q, n) && n <= |p| && n <= |q| && p[..n] == q[..n]
    ensures DirElems(files, p, n) == DirElems(files, q, n)
  {
    if n > 0 { SameBelow(files, p, q, n, n - 1); }
  }

  lemma {:induction false} SameBelow(files: string -> seq<Rule>, p: string, q: string, n: nat, m: nat)
    requires m < n < |p| && n < |q| && p[..n] == q[..n]
    ensures DirElems(files, p, m) == DirElems(files, q, m)
  {
    if m > 0 {
      assert p[m] == p[..n][m] && q[m] == q[..n][m];
      assert p[..m] == p[..n][..m] && q[..m] == q[..n][..m];
      SameBelow(files, p, q, n, m - 1);
    }
  }

  /** Positions without a slash contribute nothing. */
  lemma {:induction false} SkipNames(files: string -> seq<Rule>, path: string, len: nat, n: nat)
    requires len <= n && (n == 0 || n < |path|) && forall k :: len < k <= n ==> path[k] != '/'
    ensures DirElems(files, path, n) == DirElems(files, path, len)
  {
    if len < n { SkipNames(files, path, len, n - 1); }
  }

  /** The directory above the one at `n`. */
  ghost function Above(path: string, n: nat): (m: nat)
    requires 0 < n < |path|
    ensures m < n && AtDir(path, m) && forall k :: m < k < n ==> path[k] != '/'
  {
    if n == 1 || path[n - 1] == '/' then n - 1 else Above(path, n - 1)
  }

  lemma PopDir(files: string -> seq<Rule>, path: string, n: nat)
    requires 0 < n < |path| && path[n] == '/'
    ensures DirElems(files, path, n)[0] == Elem(Some(path[..n]), files(path[..n]))
    ensures DirElems(files, path, n)[1..] == DirElems(files, path, Above(path, n))
  {
    SkipNames(files, path, Above(path, n), n - 1);
  }

  // ---------------------------------------------------------------- matching

  /** Does `pattern`, from a file in directory `base`, match the path?  `fnmatch` is (pattern, text, pathname). */
  function PathMatches(path: string, pattern: string, base: string, fnmatch: (string, string, bool) -> bool): bool {
    if '/' !in pattern then
      var n := DirLen(path);
      fnmatch(pattern, if n == 0 && (path == "" || path[0] != '/') then path else path[n + 1..], false)
    else
      var pat := if pattern[0] == '/' then pattern[1..] else pattern;
      if |path| < |base| || (|base| > 0 && (|path| == |base| || path[|base|] != '/')) || path[..|base|] != base
      then false
      else fnmatch(pat, path[if |base| == 0 then 0 else |base| + 1..], true)
  }

  /** A pattern without a slash is matched with the name alone, in whatever directory it is. */
  lemma NameMatches(d: string, name: string, pattern: string, base: string, fnmatch: (string, string, bool) -> bool)
    requires '/' !in pattern && '/' !in name
    ensures PathMatches(d + "/" + name, pattern, base, fnmatch) == fnmatch(pattern, name, false)
    ensures name != "" ==> PathMatches(name, pattern, base, fnmatch) == fnmatch(pattern, name, false)
  {
    var path := d + "/" + name;
    assert path[|d|] == '/';
    assert forall k :: |d| < k < |path| ==> path[k] == name[k - |d| - 1];
    assert DirLen(path) == |d| && path[|d| + 1..] == name;
    if name != "" {
      var n := DirLen(name);
      assert n == 0 && name[0] != '/';
    }
  }

  /** A pattern with a slash is matched with the path below the directory of its file, one slash at its start aside,
      and with no path outside of it. */
  lemma SlashMatches(path: string, pattern: string, base: string, fnmatch: (string, string, bool) -> bool)
    requires '/' in pattern
    ensures pattern[0] != '/' ==> PathMatches(path, pattern, "", fnmatch) == fnmatch(pattern, path, true)
    ensures pattern[0] == '/' ==> PathMatches(path, pattern, "", fnmatch) == fnmatch(pattern[1..], path, true)
    ensures base != "" ==>
      PathMatches(base + "/" + path, pattern, base, fnmatch) == PathMatches(path, pattern, "", fnmatch)
    ensures base != "" && !(base + "/" <= path) ==> !PathMatches(path, pattern, base, fnmatch)
  {
    assert path[0..] == path && path[..0] == "";
    if base != "" {
      var whole := base + "/" + path;
      assert whole[|base|] == '/' && whole[..|base|] == base && whole[|base| + 1..] == path;
      if |path| > |base| && path[|base|] == '/' && path[..|base|] == base {
        assert path[..|base| + 1] == base + "/";
      }
    }
  }

  /** A slash in front of a pattern that has one elsewhere changes nothing. */
  lemma LeadingSlash(path: string, p: string, base: string, fnmatch: (string, string, bool) -> bool)
    requires '/' in p && p[0] != '/'
    ensures PathMatches(path, "/" + p, base, fnmatch) == PathMatches(path, p, base, fnmatch)
  {
    assert ("/" + p)[1..] == p && ("/" + p)[0] == '/';
  }

  /** The assignments of the matching rules of one file, last rule first, last assignment first. */
  ghost function RuleStream(rules: seq<Rule>, path: string, base: string,
                            fnmatch: (string, string, bool) -> bool): seq<State> {
    if rules == [] then []
    else
      var last := rules[|rules| - 1];
      (if last.Pattern? && PathMatches(path, last.pattern, base, fnmatch) then Reverse(last.states) else [])
      + RuleStream(rules[..|rules| - 1], path, base, fnmatch)
  }

  function Base(e: Elem): (base: string)
    ensures e.origin == Some(base) || (e.origin.None? && base == "")
  {
    if e.origin.Some? then e.origin.value else ""
  }

  /** All assignments that apply to the path, in order of precedence. */
  ghost function Stream(stack: seq<Elem>, path: string, fnmatch: (string, string, bool) -> bool): seq<State> {
    if stack == [] then []
    else RuleStream(stack[0].rules, path, Base(stack[0]), fnmatch) + Stream(stack[1..], path, fnmatch)
  }

  lemma {:induction false} RuleStreamValid(rules: seq<Rule>, path: string, base: string,
                                           fnmatch: (string, string, bool) -> bool, n: nat)
    requires ValidRules(rules, n)
    ensures ValidStates(RuleStream(rules, path, base, fnmatch), n)
  {
    if rules != [] {
      RuleStreamValid(rules[..|rules| - 1], path, base, fnmatch, n);
      ReverseValid(rules[|rules| - 1].states, n);
    }
  }

  lemma {:induction false} StreamValid(stack: seq<Elem>, path: string, fnmatch: (string, string, bool) -> bool, n: nat)
    requires ValidStack(stack, n)
    ensures ValidStates(Stream(stack, path, fnmatch), n)
  {
    if stack != [] {
      RuleStreamValid(stack[0].rules, path, Base(stack[0]), fnmatch, n);
      StreamValid(stack[1..], path, fnmatch, n);
    }
  }

  /** The attributes of a path, from scratch: the stream of its applicable assignments, run on a clean slate. */
  ghost function Attributes(stack: seq<Elem>, path: string, fnmatch: (string, string, bool) -> bool, n: nat): seq<Value>
    requires ValidStack(stack, n)
  {
    StreamValid(stack, path, fnmatch, n);
    Run(stack, Stream(stack, path, fnmatch), seq(n, _ => Unknown))
  }

  /** Every attribute of a path takes the first assignment to it in order of precedence, macros in place. */
  lemma AttributesTakeFirst(stack: seq<Elem>, path: string, fnmatch: (string, string, bool) -> bool, n: nat, a: nat)
    requires ValidStack(stack, n) && a < n
    ensures ValidStates(Stream(stack, path, fnmatch), n)
    ensures Attributes(stack, path, fnmatch, n)[a]
         == FirstFor(Order(stack, Stream(stack, path, fnmatch), seq(n, _ => Unknown)), a)
  {
    StreamValid(stack, path, fnmatch, n);
    RunTakesFirst(stack, Stream(stack, path, fnmatch), seq(n, _ => Unknown), a);
  }

  /** Reversed states are a stream that starts with the last one. */
  lemma ReverseStep(states: seq<State>, i: nat)
    requires 0 < i <= |states|
    ensures Reverse(states[..i]) == [states[i - 1]] + Reverse(states[..i - 1])
  {
    assert states[..i][..i - 1] == states[..i - 1];
  }

  lemma RulesStep(rules: seq<Rule>, i: nat, path: string, base: string, fnmatch: (string, string, bool) -> bool)
    requires 0 < i <= |rules|
    ensures RuleStream(rules[..i], path, base, fnmatch)
         == (if rules[i - 1].Pattern? && PathMatches(path, rules[i - 1].pattern, base, fnmatch)
             then Reverse(rules[i - 1].states) else [])
          + RuleStream(rules[..i - 1], path, base, fnmatch)
  {
    assert rules[..i][..i - 1] == rules[..i - 1];
  }

  lemma NoRules(path: string, base: string, fnmatch: (string, string, bool) -> bool)
    ensures RuleStream([], path, base, fnmatch) == []
  {
  }

  /** Running a stream from its first assignment: take it if still open, then its expansion, then the rest. */
  lemma RunStep(stack: seq<Elem>, s: State, rest: seq<State>, vals: seq<Value>)
    requires ValidStack(stack, |vals|) && ValidStates([s] + rest, |vals|)
    ensures ValidStates(rest, |vals|) && s.attr < |vals| && ValidStates(Expansion(stack, s), |vals|)
    ensures vals[s.attr] != Unknown ==> Run(stack, [s] + rest, vals) == Run(stack, rest, vals)
    ensures vals[s.attr] == Unknown ==>
      Run(stack, [s] + rest, vals) == Run(stack, rest, Run(stack, Expansion(stack, s), vals[s.attr := s.setto]))
  {
    assert ([s] + rest)[0] == s && ([s] + rest)[1..] == rest;
    assert forall i :: 0 <= i < |rest| ==> rest[i] == ([s] + rest)[i + 1];
    ExpansionValid(stack, s, |vals|);
    if vals[s.attr] == Unknown {
      RunAppend(stack, Expansion(stack, s), rest, vals[s.attr := s.setto]);
    }
  }

  class Collector {
    /** The value of every attribute for the path last asked about. */
    const check: array<Value>
    /** The attribute files, topmost first: info, then directories deepest first, then the global ones. */
    var stack: seq<Elem>
    const info: Elem
    const bottom: seq<Elem>
    const files: string -> seq<Rule>
    const worktree: bool
    const fnmatch: (string, string, bool) -> bool

    ghost predicate Valid()
      reads this, check
    {
      ValidStack(stack, check.Length)
    }

    /** Sets the attributes of one rule that are still open, last one first. */
    method FillOne(states: seq<State>, rem: nat) returns (left: nat)
      requires Valid() && ValidStates(states, check.Length) && rem == |UnknownOnes(check[..])|
      requires ValidStates(Reverse(states), check.Length)
      modifies check
      ensures check[..] == Run(stack, Reverse(states), old(check[..])) && left == |UnknownOnes(check[..])| <= rem
      decreases rem, 1
    {
      hide Run, Expansion, ValidStack;
      left := rem;
      var i := |states|;
      assert states[..i] == states;
      while 0 < left && 0 < i
        invariant Valid() && i <= |states| && left == |UnknownOnes(check[..])| <= rem
        invariant ValidStates(Reverse(states[..i]), check.Length)
        invariant Run(stack, Reverse(states[..i]), check[..]) == Run(stack, Reverse(states), old(check[..]))
        decreases i
      {
        i := i - 1;
        ReverseStep(states, i + 1);
        left := TakeState(states[i], left, Reverse(states[..i]));
      }
      if left == 0 {
        RunSettled(stack, Reverse(states[..i]), check[..]);
      } else {
        RunNothing(stack, check[..]);
        assert Reverse(states[..i]) == [];
      }
    }

    /** Sets one attribute if it is still open, macro included; `rest` is the stream behind it. */
    method TakeState(s: State, rem: nat, ghost rest: seq<State>) returns (left: nat)
      requires Valid() && ValidStates([s] + rest, check.Length) && rem == |UnknownOnes(check[..])| > 0
      modifies check
      ensures ValidStates(rest, check.Length) && left == |UnknownOnes(check[..])| <= rem
      ensures Run(stack, rest, check[..]) == Run(stack, [s] + rest, old(check[..]))
      decreases rem, 0
    {
      hide Run, Expansion, ValidStack;
      left := rem;
      ghost var vals := check[..];
      RunStep(stack, s, rest, vals);
      assert ([s] + rest)[0] == s;
      if check[s.attr] == Unknown {
        SetShrinks(vals, s);
        check[s.attr] := s.setto;
        assert check[..] == vals[s.attr := s.setto];
        left := left - 1;
        left := MacroExpandOne(s.attr, left);
      }
    }

    /** Applies the macro of an attribute that has just been set, if it was set to true. */
    method MacroExpandOne(nr: nat, rem: nat) returns (left: nat)
      requires Valid() && nr < check.Length && rem == |UnknownOnes(check[..])|
      requires ValidStates(Expansion(stack, State(nr, check[nr])), check.Length)
      modifies check
      ensures check[..] == Run(stack, Expansion(stack, State(nr, old(check[nr]))), old(check[..]))
      ensures left == |UnknownOnes(check[..])| <= rem
      decreases rem, 2
    {
      if check[nr] != True {
        return rem;
      }
      var a := LookupMacro(nr);
      left := rem;
      if a.Some? {
        FindMacroValid(stack, nr, check.Length);
        left := FillOne(a.value, rem);
      }
    }

    method LookupMacro(nr: nat) returns (a: Option<seq<State>>)
      ensures a == FindMacro(stack, nr)
    {
      a := None;
      assert stack[0..] == stack;
      for k := 0 to |stack|
        invariant FindMacro(stack[k..], nr) == FindMacro(stack, nr)
      {
        assert stack[k..][0] == stack[k] && stack[k..][1..] == stack[k + 1..];
        var rules := stack[k].rules;
        var i := |rules|;
        assert rules[..i] == rules;
        while 0 < i
          invariant i <= |rules| && MacroIn(rules[..i], nr) == MacroIn(rules, nr)
        {
          i := i - 1;
          assert rules[..i + 1][..i] == rules[..i];
          if rules[i].Macro? && rules[i].name == nr {
            return Some(rules[i].states);
          }
        }
      }
    }

    /** Applies the matching rules of one file, last one first. */
    method Fill(path: string, e: Elem, rem: nat) returns (left: nat)
      requires Valid() && ValidRules(e.rules, check.Length) && rem == |UnknownOnes(check[..])|
      requires ValidStates(RuleStream(e.rules, path, Base(e), fnmatch), check.Length)
      modifies check
      ensures check[..] == Run(stack, RuleStream(e.rules, path, Base(e), fnmatch), old(check[..]))
      ensures left == |UnknownOnes(check[..])|
    {
      hide Run, PathMatches, RuleStream, ValidStack;
      var rules := e.rules;
      left := rem;
      var i := |rules|;
      assert rules[..i] == rules;
      while 0 < left && 0 < i
        invariant i <= |rules| && left == |UnknownOnes(check[..])|
        invariant ValidStack(stack, check.Length)
        invariant ValidStates(RuleStream(rules[..i], path, Base(e), fnmatch), check.Length)
        invariant Run(stack, RuleStream(rules[..i], path, Base(e), fnmatch), check[..])
               == Run(stack, RuleStream(rules, path, Base(e), fnmatch), old(check[..]))
        decreases i
      {
        i := i - 1;
        var a := rules[i];
        RulesStep(rules, i + 1, path, Base(e), fnmatch);
        ReverseValid(a.states, check.Length);
        RuleStreamValid(rules[..i], path, Base(e), fnmatch, check.Length);
        if a.Macro? {
          assert [] + RuleStream(rules[..i], path, Base(e), fnmatch) == RuleStream(rules[..i], path, Base(e), fnmatch);
          continue;
        }
        if PathMatches(path, a.pattern, Base(e), fnmatch) {
          RunAppend(stack, Reverse(a.states), RuleStream(rules[..i], path, Base(e), fnmatch), check[..]);
          left := FillOne(a.states, left);
        } else {
          assert [] + RuleStream(rules[..i], path, Base(e), fnmatch) == RuleStream(rules[..i], path, Base(e), fnmatch);
        }
      }
      if left == 0 {
        RunSettled(stack, RuleStream(rules[..i], path, Base(e), fnmatch), check[..]);
      } else {
        RunNothing(stack, check[..]);
        NoRules(path, Base(e), fnmatch);
        assert rules[..i] == [];
      }
    }

    /** The stack that reading all files afresh for `path` would build. */
    ghost function Rebuilt(path: string): seq<Elem> {
      [info] + (if worktree then DirElems(files, path, DirLen(path)) else []) + bottom
    }

    /** The files without a directory: info above all, the built-in and global ones at the bottom. */
    ghost predicate Bootstrapped() {
      info.origin.None? && bottom != [] && forall i :: 0 <= i < |bottom| ==> bottom[i].origin.None?
    }

    constructor (n: nat, info: Elem, bottom: seq<Elem>, files: string -> seq<Rule>, worktree: bool,
                 fnmatch: (string, string, bool) -> bool)
      requires info.origin.None? && bottom != [] && forall i :: 0 <= i < |bottom| ==> bottom[i].origin.None?
      ensures Bootstrapped() && fresh(check) && check.Length == n && stack == Rebuilt("")
      ensures this.info == info && this.bottom == bottom && this.files == files && this.worktree == worktree
      ensures this.fnmatch == fnmatch
    {
      this.info, this.bottom, this.files, this.worktree, this.fnmatch := info, bottom, files, worktree, fnmatch;
      check := new Value[n](_ => Unknown);
      stack := [info] + (if worktree then [Elem(Some(""), files(""))] else []) + bottom;
    }

    /** Pops the directories that do not lead to `path`; `q` is the path the stack was made for. */
    method PopOthers(path: string, dirLen: nat, below: seq<Elem>, ghost q: string) returns (kept: seq<Elem>, len: nat)
      requires Bootstrapped() && worktree && dirLen == DirLen(path)
      requires below == DirElems(files, q, DirLen(q)) + bottom
      ensures len <= dirLen && AtDir(path, len) && kept == DirElems(files, path, len) + bottom
      ensures SharedDir(path, q, len) && forall m: nat :: SharedDir(path, q, m) ==> m <= len
      ensures kept != [] && kept[0] == Elem(Some(path[..len]), files(path[..len]))
    {
      hide DirElems;
      kept := below;
      ghost var n: nat := DirLen(q);
      TopDir(files, q, n);
      while true
        invariant AtDir(q, n) && n <= |q| && kept == DirElems(files, q, n) + bottom
        invariant kept[0] == Elem(Some(q[..n]), files(q[..n]))
        invariant forall m: nat :: SharedDir(path, q, m) ==> m <= n
        decreases n
      {
        var origin := kept[0].origin.value;
        len := |origin|;
        if len <= dirLen && path[..len] == origin && (len == 0 || path[len] == '/') {
          SameDirs(files, path, q, n);
          return;
        }
        TopDir(files, q, n);
        PopDir(files, q, n);
        kept := kept[1..];
        n := Above(q, n);
        TopDir(files, q, n);
      }
    }

    /** Pushes the attribute files of the directories of `path` below the one on top. */
    method PushMissing(path: string, dirLen: nat, kept: seq<Elem>, from: nat) returns (full: seq<Elem>)
      requires worktree && dirLen == DirLen(path) && from <= dirLen && AtDir(path, from)
      requires kept == DirElems(files, path, from) + bottom
      ensures full == DirElems(files, path, dirLen) + bottom
    {
      hide DirElems;
      full := kept;
      var len := from;
      while len < dirLen
        invariant len <= dirLen && AtDir(path, len) && full == DirElems(files, path, len) + bottom
        decreases dirLen - len
      {
        var cp := len + 1;
        while cp < dirLen && path[cp] != '/'
          invariant len < cp <= dirLen && forall k :: len < k < cp ==> path[k] != '/'
        {
          cp := cp + 1;
        }
        PushDir(files, path, len, cp);
        full := [Elem(Some(path[..cp]), files(path[..cp]))] + full;
        len := cp;
      }
    }

    /** Brings the stack from the last path asked about to `path`; the outcome is as if rebuilt. */
    method PrepareAttrStack(path: string, ghost q: string)
      requires Bootstrapped() && stack == Rebuilt(q)
      modifies this`stack
      ensures stack == Rebuilt(path)
    {
      hide DirElems;
      var dirLen := DirLen(path);
      var below := stack[1..];
      if worktree {
        var kept, len := PopOthers(path, dirLen, below, q);
        below := PushMissing(path, dirLen, kept, len);
      }
      stack := [info] + below;
    }

    /** The attributes of `path`: exactly those its own files, freshly read, would give it, whatever paths
        were asked about before. */
    method CollectAllAttrs(path: string, ghost q: string)
      requires Bootstrapped() && stack == Rebuilt(q) && ValidStack(Rebuilt(path), check.Length)
      modifies this`stack, check
      ensures stack == Rebuilt(path)
      ensures check[..] == Attributes(Rebuilt(path), path, fnmatch, check.Length)
    {
      hide ValidStack, Run, Stream, RuleStream;
      PrepareAttrStack(path, q);
      for i := 0 to check.Length
        invariant stack == Rebuilt(path) && forall k :: 0 <= k < i ==> check[k] == Unknown
      {
        check[i] := Unknown;
      }
      assert check[..] == seq(check.Length, _ => Unknown);
      AllUnknown(check[..]);
      var rem: nat := check.Length;
      StreamValid(stack, path, fnmatch, check.Length);
      assert stack[0..] == stack;
      var k := 0;
      while 0 < rem && k < |stack|
        invariant stack == Rebuilt(path) && k <= |stack| && Valid() && rem == |UnknownOnes(check[..])|
        invariant ValidStates(Stream(stack[k..], path, fnmatch), check.Length)
        invariant Run(stack, Stream(stack[k..], path, fnmatch), check[..])
               == Attributes(stack, path, fnmatch, check.Length)
        decreases |stack| - k
      {
        StreamStep(stack, k, path, fnmatch, check.Length);
        RunAppend(stack, RuleStream(stack[k].rules, path, Base(stack[k]), fnmatch),
                  Stream(stack[k + 1..], path, fnmatch), check[..]);
        rem := Fill(path, stack[k], rem);
        k := k + 1;
      }
      if rem == 0 {
        RunSettled(stack, Stream(stack[k..], path, fnmatch), check[..]);
      } else {
        assert stack[k..] == [];
        StreamEnds(path, fnmatch);
        RunNothing(stack, check[..]);
      }
    }
  }

  lemma TopDir(files: string -> seq<Rule>, path: string, n: nat)
    requires AtDir(path, n) && n <= |path|
    ensures DirElems(files, path, n)[0] == Elem(Some(path[..n]), files(path[..n]))
  {
  }

  lemma PushDir(files: string -> seq<Rule>, path: string, len: nat, cp: nat)
    requires len < cp < |path| && path[cp] == '/' && forall k :: len < k < cp ==> path[k] != '/'
    ensures DirElems(files, path, cp) == [Elem(Some(path[..cp]), files(path[..cp]))] + DirElems(files, path, len)
  {
    SkipNames(files, path, len, cp - 1);
  }

  lemma StreamStep(stack: seq<Elem>, k: nat, path: string, fnmatch: (string, string, bool) -> bool, n: nat)
    requires ValidStack(stack, n) && k < |stack|
    ensures ValidRules(stack[k].rules, n)
    ensures Stream(stack[k..], path, fnmatch)
         == RuleStream(stack[k].rules, path, Base(stack[k]), fnmatch) + Stream(stack[k + 1..], path, fnmatch)
    ensures ValidStates(RuleStream(stack[k].rules, path, Base(stack[k]), fnmatch), n)
    ensures ValidStates(Stream(stack[k + 1..], path, fnmatch), n)
  {
    assert stack[k..][0] == stack[k] && stack[k..][1..] == stack[k + 1..];
    RuleStreamValid(stack[k].rules, path, Base(stack[k]), fnmatch, n);
    StreamValid(stack[k + 1..], path, fnmatch, n);
  }

  lemma StreamEnds(path: string, fnmatch: (string, string, bool) -> bool)
    ensures Stream([], path, fnmatch) == []
  {
  }

  lemma {:induction false} AllUnknown(vals: seq<Value>)
    requires forall k :: 0 <= k < |vals| ==> vals[k] == Unknown
    ensures |UnknownOnes(vals)| == |vals|
  {
    if vals == [] {
      assert UnknownOnes(vals) == {};
    } else {
      var init := vals[..|vals| - 1];
      AllUnknown(init);
      assert UnknownOnes(vals) == UnknownOnes(init) + {|init|};
    }
  }

  lemma RunNothing(stack: seq<Elem>, vals: seq<Value>)
    requires ValidStack(stack, |vals|)
    ensures Run(stack, [], vals) == vals
  {
  }
}
