/** Attribute rules and what they decide, as one stream of assignments (attr.c:110-147, 666-745). */
module AttrSpec {
  import opened Common

  /** What an attribute is set to; `Unknown` means that no rule has spoken yet. */
  datatype Value = Unknown | True | False | Unset | Text(text: string)

  datatype State = State(attr: nat, setto: Value)

  /** A rule: a macro definition, or a pattern with the attributes it sets, in file order. */
  datatype Rule = Macro(name: nat, states: seq<State>) | Pattern(pattern: string, states: seq<State>)

  /** The rules of one attributes file; `origin` is its directory, if it has one. */
  datatype Elem = Elem(origin: Option<string>, rules: seq<Rule>)

  /** All attribute numbers are below `n` and no rule sets an attribute to unknown. */
  ghost predicate ValidStates(states: seq<State>, n: nat) {
    forall i :: 0 <= i < |states| ==> states[i].attr < n && states[i].setto != Unknown
  }

  ghost predicate ValidRules(rules: seq<Rule>, n: nat) {
    forall i :: 0 <= i < |rules| ==> ValidStates(rules[i].states, n)
  }

  /** Elements are listed from the top of the stack down. */
  ghost predicate ValidStack(stack: seq<Elem>, n: nat) {
    forall i :: 0 <= i < |stack| ==> ValidRules(stack[i].rules, n)
  }

  function Reverse<T>(s: seq<T>): (r: seq<T>)
    ensures |r| == |s|
  {
    if s == [] then [] else [s[|s| - 1]] + Reverse(s[..|s| - 1])
  }

  lemma {:induction false} ReverseValid(states: seq<State>, n: nat)
    requires ValidStates(states, n)
    ensures ValidStates(Reverse(states), n)
  {
    if states != [] { ReverseValid(states[..|states| - 1], n); }
  }

  // ---------------------------------------------------------------- macro lookup

  /** The last definition of macro `nr` in one file. */
  function MacroIn(rules: seq<Rule>, nr: nat): Option<seq<State>> {
    if rules == [] then None
    else
      var last := rules[|rules| - 1];
      if last.Macro? && last.name == nr then Some(last.states) else MacroIn(rules[..|rules| - 1], nr)
  }

  /** The definition in force: the topmost file that has one. */
  function FindMacro(stack: seq<Elem>, nr: nat): Option<seq<State>> {
    if stack == [] then None
    else
      var m := MacroIn(stack[0].rules, nr);
      if m.Some? then m else FindMacro(stack[1..], nr)
  }

  lemma {:induction false} MacroInValid(rules: seq<Rule>, nr: nat, n: nat)
    requires ValidRules(rules, n)
    ensures MacroIn(rules, nr).Some? ==> ValidStates(MacroIn(rules, nr).value, n)
  {
    if rules != [] { MacroInValid(rules[..|rules| - 1], nr, n); }
  }

  lemma {:induction false} FindMacroValid(stack: seq<Elem>, nr: nat, n: nat)
    requires ValidStack(stack, n)
    ensures FindMacro(stack, nr).Some? ==> ValidStates(FindMacro(stack, nr).value, n)
  {
    if stack != [] {
      MacroInValid(stack[0].rules, nr, n);
      FindMacroValid(stack[1..], nr, n);
    }
  }

  /** What setting an attribute triggers: its macro, last assignment first, if it became true. */
  function Expansion(stack: seq<Elem>, s: State): seq<State> {
    if s.setto != True then []
    else
      match FindMacro(stack, s.attr)
      case None => []
      case Some(states) => Reverse(states)
  }

  lemma ExpansionValid(stack: seq<Elem>, s: State, n: nat)
    requires ValidStack(stack, n)
    ensures ValidStates(Expansion(stack, s), n)
  {
    FindMacroValid(stack, s.attr, n);
    if s.setto == True && FindMacro(stack, s.attr).Some? { ReverseValid(FindMacro(stack, s.attr).value, n); }
  }

  // ---------------------------------------------------------------- the stream of assignments

  ghost function UnknownOnes(vals: seq<Value>): set<nat> {
    set a: nat | a < |vals| && vals[a] == Unknown
  }

  /** Assignments take effect in order, each only if its attribute is still unknown; one that does is
      followed at once by its macro's assignments.  Cyclic macros are harmless: every effective step uses
      up an unknown attribute. */
  ghost function Run(stack: seq<Elem>, pending: seq<State>, vals: seq<Value>): (r: seq<Value>)
    requires ValidStack(stack, |vals|) && ValidStates(pending, |vals|)
    ensures |r| == |vals|
    decreases UnknownOnes(vals), |pending|
  {
    if pending == [] then vals
    else
      var s := pending[0];
      if vals[s.attr] != Unknown then Run(stack, pending[1..], vals)
      else
        var vals' := vals[s.attr := s.setto];
        ExpansionValid(stack, s, |vals|);
        SetShrinks(vals, s);
        Run(stack, Expansion(stack, s) + pending[1..], vals')
  }

  lemma SetShrinks(vals: seq<Value>, s: State)
    requires s.attr < |vals| && vals[s.attr] == Unknown && s.setto != Unknown
    ensures UnknownOnes(vals[s.attr := s.setto]) == UnknownOnes(vals) - {s.attr} && s.attr in UnknownOnes(vals)
  {
  }

  lemma {:induction false} RunAppend(stack: seq<Elem>, p: seq<State>, q: seq<State>, vals: seq<Value>)
    requires ValidStack(stack, |vals|) && ValidStates(p, |vals|) && ValidStates(q, |vals|)
    ensures ValidStates(p + q, |vals|)
    ensures Run(stack, p + q, vals) == Run(stack, q, Run(stack, p, vals))
    decreases UnknownOnes(vals), |p|
  {
    if p == [] {
      assert p + q == q;
    } else {
      var s := p[0];
      assert (p + q)[1..] == p[1..] + q;
      if vals[s.attr] != Unknown {
        RunAppend(stack, p[1..], q, vals);
      } else {
        var vals' := vals[s.attr := s.setto];
        ExpansionValid(stack, s, |vals|);
        SetShrinks(vals, s);
        var x := Expansion(stack, s);
        assert x + (p[1..] + q) == x + p[1..] + q;
        RunAppend(stack, x + p[1..], q, vals');
      }
    }
  }

  /** With nothing unknown left, the rest of the stream changes nothing. */
  lemma {:induction false} RunSettled(stack: seq<Elem>, pending: seq<State>, vals: seq<Value>)
    requires ValidStack(stack, |vals|) && ValidStates(pending, |vals|) && UnknownOnes(vals) == {}
    ensures Run(stack, pending, vals) == vals
  {
    if pending != [] {
      assert vals[pending[0].attr] != Unknown by { assert pending[0].attr !in UnknownOnes(vals); }
      RunSettled(stack, pending[1..], vals);
    }
  }

  // ---------------------------------------------------------------- what the stream decides

  /** A decision, once made, stands. */
  lemma {:induction false} RunKeeps(stack: seq<Elem>, pending: seq<State>, vals: seq<Value>, a: nat)
    requires ValidStack(stack, |vals|) && ValidStates(pending, |vals|)
    requires a < |vals| && vals[a] != Unknown
    ensures Run(stack, pending, vals)[a] == vals[a]
    decreases UnknownOnes(vals), |pending|
  {
    if pending != [] {
      var s := pending[0];
      if vals[s.attr] != Unknown {
        RunKeeps(stack, pending[1..], vals, a);
      } else {
        ExpansionValid(stack, s, |vals|);
        SetShrinks(vals, s);
        RunKeeps(stack, Expansion(stack, s) + pending[1..], vals[s.attr := s.setto], a);
      }
    }
  }

  /** Every attribute named in the stream ends up decided. */
  lemma {:induction false} RunDecides(stack: seq<Elem>, pending: seq<State>, vals: seq<Value>, k: nat)
    requires ValidStack(stack, |vals|) && ValidStates(pending, |vals|) && k < |pending|
    ensures Run(stack, pending, vals)[pending[k].attr] != Unknown
    decreases UnknownOnes(vals), |pending|
  {
    var s := pending[0];
    var rest := pending[1..];
    if vals[s.attr] != Unknown {
      if k == 0 { RunKeeps(stack, rest, vals, s.attr); } else { RunDecides(stack, rest, vals, k - 1); }
    } else {
      var vals', x := vals[s.attr := s.setto], Expansion(stack, s);
      ExpansionValid(stack, s, |vals|);
      SetShrinks(vals, s);
      if k == 0 {
        RunKeeps(stack, x + rest, vals', s.attr);
      } else {
        assert (x + rest)[|x| + k - 1] == pending[k];
        RunDecides(stack, x + rest, vals', |x| + k - 1);
      }
    }
  }

  /** An unknown attribute becomes true only together with everything its macro sets: all of it is decided. */
  lemma {:induction false} MacrosAreExpanded(stack: seq<Elem>, pending: seq<State>, vals: seq<Value>, a: nat, k: nat)
    requires ValidStack(stack, |vals|) && ValidStates(pending, |vals|)
    requires a < |vals| && vals[a] == Unknown && Run(stack, pending, vals)[a] == True
    requires k < |Expansion(stack, State(a, True))| && Expansion(stack, State(a, True))[k].attr < |vals|
    ensures Run(stack, pending, vals)[Expansion(stack, State(a, True))[k].attr] != Unknown
    decreases UnknownOnes(vals), |pending|
  {
    var s := pending[0];
    var rest := pending[1..];
    if vals[s.attr] != Unknown {
      MacrosAreExpanded(stack, rest, vals, a, k);
    } else {
      var vals', x := vals[s.attr := s.setto], Expansion(stack, s);
      ExpansionValid(stack, s, |vals|);
      SetShrinks(vals, s);
      if s.attr == a {
        RunKeeps(stack, x + rest, vals', a);
        assert s == State(a, True) && (x + rest)[k] == x[k];
        RunDecides(stack, x + rest, vals', k);
      } else {
        MacrosAreExpanded(stack, x + rest, vals', a, k);
      }
    }
  }

  /** The first assignment that finds its attribute unknown decides it, whatever comes behind. */
  lemma FirstAssignmentWins(stack: seq<Elem>, pre: seq<State>, s: State, post: seq<State>, vals: seq<Value>)
    requires ValidStack(stack, |vals|) && ValidStates(pre + ([s] + post), |vals|) && ValidStates(pre, |vals|)
    requires s.attr < |vals| && Run(stack, pre, vals)[s.attr] == Unknown
    ensures Run(stack, pre + ([s] + post), vals)[s.attr] == s.setto
  {
    var vals', x := Run(stack, pre, vals), Expansion(stack, s);
    TailValid(pre, s, post, |vals|);
    RunAppend(stack, pre, [s] + post, vals);
    ExpansionValid(stack, s, |vals|);
    assert ([s] + post)[1..] == post;
    SetShrinks(vals', s);
    RunKeeps(stack, x + post, vals'[s.attr := s.setto], s.attr);
  }

  lemma TailValid(pre: seq<State>, s: State, post: seq<State>, n: nat)
    requires ValidStates(pre + ([s] + post), n)
    ensures ValidStates([s] + post, n) && ValidStates(post, n)
  {
    assert forall i :: 0 <= i < |post| ==> (pre + ([s] + post))[|pre| + 1 + i] == post[i];
    assert (pre + ([s] + post))[|pre|] == s;
  }

  /** A macro's assignments take the place right behind the one that made it true: one that is reached with
      its attribute unknown decides it, before anything in `post`. */
  lemma MacroAssignmentWins(stack: seq<Elem>, pre: seq<State>, s: State, post: seq<State>, vals: seq<Value>, k: nat)
    requires ValidStack(stack, |vals|) && ValidStates(pre + ([s] + post), |vals|) && ValidStates(pre, |vals|)
    requires s.attr < |vals| && Run(stack, pre, vals)[s.attr] == Unknown
    requires k < |Expansion(stack, s)| && ValidStates(Expansion(stack, s), |vals|)
    requires Run(stack, Expansion(stack, s)[..k], Run(stack, pre, vals)[s.attr := s.setto])
      [Expansion(stack, s)[k].attr] == Unknown
    ensures Run(stack, pre + ([s] + post), vals)[Expansion(stack, s)[k].attr] == Expansion(stack, s)[k].setto
  {
    var vals', x := Run(stack, pre, vals), Expansion(stack, s);
    TailValid(pre, s, post, |vals|);
    RunAppend(stack, pre, [s] + post, vals);
    assert ([s] + post)[1..] == post;
    SetShrinks(vals', s);
    assert x + post == x[..k] + ([x[k]] + (x[k + 1..] + post));
    FirstAssignmentWins(stack, x[..k], x[k], x[k + 1..] + post, vals'[s.attr := s.setto]);
  }

  /** The order of precedence: the assignments as they come up, those of a macro right behind the one that
      made it true. */
  ghost function Order(stack: seq<Elem>, pending: seq<State>, vals: seq<Value>): seq<State>
    requires ValidStack(stack, |vals|) && ValidStates(pending, |vals|)
    decreases UnknownOnes(vals), |pending|
  {
    if pending == [] then []
    else
      var s := pending[0];
      if vals[s.attr] != Unknown then [s] + Order(stack, pending[1..], vals)
      else
        ExpansionValid(stack, s, |vals|);
        SetShrinks(vals, s);
        [s] + Order(stack, Expansion(stack, s) + pending[1..], vals[s.attr := s.setto])
  }

  /** What the first assignment to `a` sets it to. */
  function FirstFor(order: seq<State>, a: nat): Value {
    if order == [] then Unknown else if order[0].attr == a then order[0].setto else FirstFor(order[1..], a)
  }

  /** Every attribute not decided before takes its first assignment in the order of precedence, and stays
      unknown exactly when it has none. */
  lemma {:induction false} RunTakesFirst(stack: seq<Elem>, pending: seq<State>, vals: seq<Value>, a: nat)
    requires ValidStack(stack, |vals|) && ValidStates(pending, |vals|) && a < |vals|
    ensures Run(stack, pending, vals)[a] ==
      if vals[a] != Unknown then vals[a] else FirstFor(Order(stack, pending, vals), a)
    decreases UnknownOnes(vals), |pending|
  {
    if pending != [] {
      var s := pending[0];
      if vals[s.attr] != Unknown {
        RunTakesFirst(stack, pending[1..], vals, a);
      } else {
        ExpansionValid(stack, s, |vals|);
        SetShrinks(vals, s);
        RunTakesFirst(stack, Expansion(stack, s) + pending[1..], vals[s.attr := s.setto], a);
      }
    }
  }
}
