/** The configuration syntax: what the parser accepts, what the writer produces, and that they agree
    (config.c:169-406, 1119-1190). */
module ConfigSpec {
  import opened Common

  const MAXNAME := 256

  predicate IsSpace(c: char) {
    c == ' ' || c == '\t' || c == '\n' || c == '\r'
  }

  predicate IsAlpha(c: char) {
    'a' <= c <= 'z' || 'A' <= c <= 'Z'
  }

  predicate IsKeyChar(c: char) {
    IsAlpha(c) || '0' <= c <= '9' || c == '-'
  }

  function Lower(c: char): char {
    if 'A' <= c <= 'Z' then (c as int + 32) as char else c
  }

  function LowerAll(s: string): (r: string)
    ensures |r| == |s| && forall k :: 0 <= k < |s| ==> r[k] == Lower(s[k])
  {
    seq(|s|, k requires 0 <= k < |s| => Lower(s[k]))
  }

  // ---------------------------------------------------------------- the parser

  /** One character, and what is left; CRLF counts as LF, and the end of the file as LF too. */
  function Next(s: string): (n: (char, string))
    ensures |n.1| <= |s| && (s != "" ==> |n.1| < |s|)
  {
    if s == "" then ('\n', "")
    else if s[0] == '\r' && |s| > 1 && s[1] == '\n' then ('\n', s[2..])
    else (s[0], s[1..])
  }

  function Spaces(n: nat): (r: string)
    ensures |r| == n
  {
    if n == 0 then "" else Spaces(n - 1) + " "
  }

  /** What an escape stands for; None for an unknown one. */
  function Unescaped(c: char): Option<char> {
    if c == 't' then Some('\t') else if c == 'b' then Some('\U{8}') else if c == 'n' then Some('\n')
    else if c == '\\' || c == '"' then Some(c) else None
  }

  /** The value up to the end of the line, and what follows it. */
  function ParseVal(s: string, quote: bool, comment: bool, space: nat, buf: string): (r: Option<(string, string)>)
    ensures r.Some? ==> |r.value.1| <= |s|
    decreases |s|
  {
    var (c, rest) := Next(s);
    if c == '\n' then if quote then None else Some((buf, rest))
    else if comment then ParseVal(rest, quote, comment, space, buf)
    else if IsSpace(c) && !quote then ParseVal(rest, quote, comment, if buf != "" then space + 1 else space, buf)
    else if !quote && (c == ';' || c == '#') then ParseVal(rest, quote, true, space, buf)
    else
      var buf' := buf + Spaces(space);
      if c == '\\' then
        var (e, rest') := Next(rest);
        if e == '\n' then ParseVal(rest', quote, comment, 0, buf')
        else if Unescaped(e).None? then None
        else ParseVal(rest', quote, comment, 0, buf' + [Unescaped(e).value])
      else if c == '"' then ParseVal(rest, !quote, comment, 0, buf')
      else ParseVal(rest, quote, comment, 0, buf' + [c])
  }

  /** The rest of a variable's name, and the character after it. */
  function ParseName(s: string, name: string): (r: Option<(string, char, string)>)
    ensures r.Some? ==> |r.value.2| <= |s| && (s != "" ==> |r.value.2| < |s|) && |r.value.0| >= |name|
    ensures r.Some? && |name| < MAXNAME ==> |r.value.0| < MAXNAME
    decreases |s|
  {
    var (c, rest) := Next(s);
    if !IsKeyChar(c) then Some((name, c, rest))
    else if |name| + 1 >= MAXNAME then None
    else ParseName(rest, name + [Lower(c)])
  }

  function SkipBlank(c: char, s: string): (r: (char, string))
    ensures |r.1| <= |s|
    decreases |s|, if c == '\n' then 0 else 1
  {
    if c == ' ' || c == '\t' then
      var (d, rest) := Next(s);
      SkipBlank(d, rest)
    else (c, s)
  }

  /** A whole variable line, whose first letter is already in `name`. */
  function ParseVar(s: string, name: string): (r: Option<(string, Option<string>, string)>)
    ensures r.Some? ==> |r.value.2| <= |s|
  {
    var n := ParseName(s, name);
    if n.None? then None
    else
      var (c, rest) := SkipBlank(n.value.1, n.value.2);
      if c == '\n' then Some((n.value.0, None, rest))
      else if c != '=' then None
      else
        var v := ParseVal(rest, false, false, 0, "");
        if v.None? then None else Some((n.value.0, Some(v.value.0), v.value.1))
  }

  function SkipSpace(s: string, c: char): (r: Option<(char, string)>)
    ensures r.Some? ==> |r.value.1| <= |s|
    decreases |s|, if c == '\n' then 0 else 1
  {
    if c == '\n' then None
    else
      var (d, rest) := Next(s);
      if IsSpace(d) then SkipSpace(rest, d) else Some((d, rest))
  }

  /** The quoted subsection, to its closing quote. */
  function ParseSub(s: string, name: string): (r: Option<(string, string)>)
    ensures r.Some? ==> |r.value.1| < |s|
    decreases |s|
  {
    var (c, rest) := Next(s);
    if c == '\n' then None
    else if c == '"' then Some((name, rest))
    else if c == '\\' then
      var (e, rest') := Next(rest);
      if e == '\n' || |name| + 1 > MAXNAME / 2 then None else ParseSub(rest', name + [e])
    else if |name| + 1 > MAXNAME / 2 then None
    else ParseSub(rest, name + [c])
  }

  function ParseExtended(s: string, name: string, c: char): (r: Option<(string, string)>)
    ensures r.Some? ==> |r.value.1| <= |s|
  {
    var q := SkipSpace(s, c);
    if q.None? || q.value.0 != '"' then None
    else
      var sub := ParseSub(q.value.1, name + ".");
      if sub.None? then None
      else
        var (d, rest) := Next(sub.value.1);
        if d != ']' then None else Some((sub.value.0, rest))
  }

  /** A section header after its bracket. */
  function ParseBase(s: string, name: string): (r: Option<(string, string)>)
    ensures r.Some? ==> |r.value.1| < |s|
    decreases |s|
  {
    var (c, rest) := Next(s);
    if s == "" then None
    else if c == ']' then Some((name, rest))
    else if IsSpace(c) then ParseExtended(rest, name, c)
    else if !IsKeyChar(c) && c != '.' then None
    else if |name| > MAXNAME / 2 then None
    else ParseBase(rest, name + [Lower(c)])
  }

  /** The calls made, in order, and whether the whole file was understood. */
  datatype Parsed = Parsed(calls: seq<(string, Option<string>)>, ok: bool)

  function ParseText(s: string, base: string, comment: bool): Parsed
    decreases |s|
  {
    var (c, rest) := Next(s);
    if s == "" then Parsed([], true)
    else if c == '\n' then ParseText(rest, base, false)
    else if comment || IsSpace(c) then ParseText(rest, base, comment)
    else if c == '#' || c == ';' then ParseText(rest, base, true)
    else if c == '[' then
      var b := ParseBase(rest, "");
      if b.None? || b.value.0 == "" then Parsed([], false) else ParseText(b.value.1, b.value.0 + ".", comment)
    else if !IsAlpha(c) then Parsed([], false)
    else
      var v := ParseVar(rest, base + [Lower(c)]);
      if v.None? then Parsed([], false)
      else
        var more := ParseText(v.value.2, base, comment);
        Parsed([(v.value.0, v.value.1)] + more.calls, more.ok)
  }

  // ---------------------------------------------------------------- the writer

  /** A section, with its subsection if it has one. */
  datatype Head = Head(section: string, sub: Option<string>)

  /** Section and subsection as the callback sees them. */
  function BaseName(h: Head): string {
    LowerAll(h.section) + if h.sub.Some? then "." + h.sub.value else ""
  }

  /** A section as a key names it, within the parser's limits. */
  ghost predicate ValidHead(h: Head) {
    && (forall i :: 0 <= i < |h.section| ==> IsKeyChar(h.section[i]))
    && |h.section| <= MAXNAME / 2 + 1
    && (if h.sub.None? then h.section != ""
        else '\n' !in h.sub.value && (h.sub.value == "" || |h.section| + 1 + |h.sub.value| <= MAXNAME / 2))
  }

  ghost predicate ValidName(h: Head, name: string) {
    && (forall i :: 0 <= i < |name| ==> IsKeyChar(name[i])) && name != "" && IsAlpha(name[0])
    && |BaseName(h)| + 1 + |name| < MAXNAME
  }

  function EscSub(s: string): string {
    if s == "" then "" else (if s[0] == '"' || s[0] == '\\' then ['\\', s[0]] else [s[0]]) + EscSub(s[1..])
  }

  function Section(h: Head): string {
    if h.sub.Some? then "[" + h.section + " \"" + EscSub(h.sub.value) + "\"]\n"
    else "[" + h.section + "]\n"
  }

  function EscOne(c: char): string {
    if c == '\n' then "\\n" else if c == '\t' then "\\t" else if c == '"' || c == '\\' then ['\\', c] else [c]
  }

  function EscVal(v: string): string {
    if v == "" then "" else EscOne(v[0]) + EscVal(v[1..])
  }

  /** A value is put in quotes for the sake of spaces at its ends and of comment characters. */
  predicate NeedsQuote(v: string) {
    v != "" && (v[0] == ' ' || v[|v| - 1] == ' ' || ';' in v || '#' in v)
  }

  function Quote(v: string): string {
    if NeedsQuote(v) then "\"" else ""
  }

  function PairLine(name: string, v: string): string {
    "\t" + name + " = " + Quote(v) + EscVal(v) + Quote(v) + "\n"
  }

  // ---------------------------------------------------------------- values come back

  lemma NextIs(c: char, t: string)
    requires c != '\r' || t == "" || t[0] != '\n'
    ensures Next([c] + t) == (c, t)
  {
    assert ([c] + t)[1..] == t;
  }

  lemma EscStep(v: string, t: string)
    requires v != ""
    ensures EscVal(v) + t == EscOne(v[0]) + (EscVal(v[1..]) + t)
  {
  }

  /** No escaped text starts with an LF. */
  lemma EscNoLf(v: string, t: string)
    requires t != "" && t[0] != '\n'
    ensures EscVal(v) + t != "" && (EscVal(v) + t)[0] != '\n'
  {
  }

  /** One written character is read back; inside quotes any, outside quotes no space, CR or comment start. */
  lemma ReadOne(c: char, t: string, quote: bool, space: nat, buf: string)
    requires quote || (c != ' ' && c != '\r' && c != ';' && c != '#')
    requires c == '\r' ==> t == "" || t[0] != '\n'
    requires quote ==> space == 0
    ensures |EscOne(c)| > 0
    ensures ParseVal(EscOne(c) + t, quote, false, space, buf) == ParseVal(t, quote, false, 0, buf + Spaces(space) + [c])
  {
    hide Spaces;
    NoSpaces();
    if |EscOne(c)| == 2 {
      var e := EscOne(c)[1];
      assert EscOne(c) + t == ['\\'] + ([e] + t);
      NextIs('\\', [e] + t);
      NextIs(e, t);
    } else {
      NextIs(c, t);
      assert EscOne(c) + t == [c] + t;
    }
    assert quote ==> buf + Spaces(space) == buf;
  }

  lemma NoSpaces()
    ensures Spaces(0) == ""
  {
  }

  lemma {:induction false} QuotedBack(v: string, t: string, buf: string)
    ensures ParseVal(EscVal(v) + "\"\n" + t, true, false, 0, buf) == Some((buf + v, t))
    decreases |v|
  {
    hide ParseVal;
    var tail := "\"\n" + t;
    if v == "" {
      assert EscVal(v) + "\"\n" + t == tail;
      QuoteEnds(t, buf);
      assert buf + v == buf;
    } else {
      var more := EscVal(v[1..]) + tail;
      assert EscVal(v) + "\"\n" + t == EscVal(v) + tail;
      EscStep(v, tail);
      EscNoLf(v[1..], tail);
      ReadOne(v[0], more, true, 0, buf);
      NoSpaces();
      assert more == EscVal(v[1..]) + "\"\n" + t;
      QuotedBack(v[1..], t, buf + Spaces(0) + [v[0]]);
      assert buf + Spaces(0) + [v[0]] + v[1..] == buf + v;
    }
  }

  lemma QuoteEnds(t: string, buf: string)
    ensures ParseVal("\"\n" + t, true, false, 0, buf) == Some((buf, t))
  {
    assert "\"\n" + t == ['"'] + ("\n" + t);
    NextIs('"', "\n" + t);
    NextIs('\n', t);
    NoSpaces();
    assert buf + Spaces(0) == buf;
  }

  /** A space outside quotes waits for something to follow. */
  lemma ReadSpace(c: char, t: string, space: nat, buf: string)
    requires c == ' ' || (c == '\r' && t != "" && t[0] != '\n')
    ensures ParseVal([c] + t, false, false, space, buf)
         == ParseVal(t, false, false, if buf != "" then space + 1 else space, buf)
  {
    NextIs(c, t);
  }

  lemma {:induction false} PlainBack(v: string, t: string, space: nat, buf: string)
    requires '\r' !in v && ';' !in v && '#' !in v
    requires v == "" ==> space == 0
    requires v != "" ==> v[|v| - 1] != ' ' && (buf == "" ==> v[0] != ' ' && space == 0)
    ensures ParseVal(EscVal(v) + "\n" + t, false, false, space, buf) == Some((buf + Spaces(space) + v, t))
    decreases |v|
  {
    hide ParseVal;
    var tail := "\n" + t;
    NoSpaces();
    if v == "" {
      assert EscVal(v) + "\n" + t == tail;
      LineEnds(t, buf);
      assert buf + Spaces(0) + v == buf;
    } else {
      var more := EscVal(v[1..]) + tail;
      assert EscVal(v) + "\n" + t == EscVal(v) + tail;
      EscStep(v, tail);
      assert more == EscVal(v[1..]) + "\n" + t;
      if v[0] == ' ' {
        assert EscOne(v[0]) == [v[0]];
        ReadSpace(v[0], more, space, buf);
        PlainBack(v[1..], t, space + 1, buf);
        assert buf + Spaces(space + 1) + v[1..] == buf + Spaces(space) + v;
      } else {
        ReadOne(v[0], more, false, space, buf);
        var buf' := buf + Spaces(space) + [v[0]];
        PlainBack(v[1..], t, 0, buf');
        assert buf' + Spaces(0) + v[1..] == buf + Spaces(space) + v;
      }
    }
  }

  lemma LineEnds(t: string, buf: string)
    ensures ParseVal("\n" + t, false, false, 0, buf) == Some((buf, t))
  {
    NextIs('\n', t);
    assert "\n" + t == ['\n'] + t;
  }

  /** The value as it follows the equals sign. */
  lemma ValueBack(v: string, t: string)
    requires '\r' !in v || NeedsQuote(v)
    ensures ParseVal(" " + Quote(v) + EscVal(v) + Quote(v) + "\n" + t, false, false, 0, "") == Some((v, t))
  {
    hide ParseVal, EscVal, Spaces;
    NoSpaces();
    var s := Quote(v) + EscVal(v) + Quote(v) + "\n" + t;
    assert " " + Quote(v) + EscVal(v) + Quote(v) + "\n" + t == [' '] + s;
    ReadSpace(' ', s, 0, "");
    if NeedsQuote(v) {
      var inner := EscVal(v) + "\"\n" + t;
      assert s == ['"'] + inner;
      QuoteOpens(inner);
      QuotedBack(v, t, "");
      assert "" + v == v;
    } else {
      assert s == EscVal(v) + "\n" + t by { assert "" + EscVal(v) + "" == EscVal(v); }
      PlainBack(v, t, 0, "");
      assert "" + "" + v == v;
    }
  }

  lemma QuoteOpens(inner: string)
    ensures ParseVal(['"'] + inner, false, false, 0, "") == ParseVal(inner, true, false, 0, "")
  {
    NextIs('"', inner);
    NoSpaces();
    assert "" + Spaces(0) == "";
  }

  // ---------------------------------------------------------------- a CR outside quotes does not

  /** Outside quotes no CR gets into the value. */
  lemma {:induction false} CrIsLost(v: string, t: string, space: nat, buf: string)
    requires ';' !in v && '#' !in v && '\r' !in buf
    ensures var r := ParseVal(EscVal(v) + "\n" + t, false, false, space, buf);
      r.Some? ==> '\r' !in r.value.0
    decreases |v|
  {
    hide ParseVal;
    var tail := "\n" + t;
    if v == "" {
      assert EscVal(v) + "\n" + t == tail;
      LineEndsAny(t, space, buf);
    } else {
      var more := EscVal(v[1..]) + tail;
      assert EscVal(v) + "\n" + t == EscVal(v) + tail;
      EscStep(v, tail);
      assert more == EscVal(v[1..]) + "\n" + t;
      if v[0] == ' ' || v[0] == '\r' {
        assert EscOne(v[0]) == [v[0]];
        if v[0] == '\r' && more[0] == '\n' {
          CrLfEnds(more, space, buf);
        } else {
          ReadSpace(v[0], more, space, buf);
          CrIsLost(v[1..], t, if buf != "" then space + 1 else space, buf);
        }
      } else {
        ReadOne(v[0], more, false, space, buf);
        SpacesAreSpaces(space);
        CrIsLost(v[1..], t, 0, buf + Spaces(space) + [v[0]]);
      }
    }
  }

  lemma LineEndsAny(t: string, space: nat, buf: string)
    ensures ParseVal("\n" + t, false, false, space, buf) == Some((buf, t))
  {
    NextIs('\n', t);
    assert "\n" + t == ['\n'] + t;
  }

  lemma CrLfEnds(more: string, space: nat, buf: string)
    requires more != "" && more[0] == '\n'
    ensures ParseVal(['\r'] + more, false, false, space, buf) == Some((buf, more[1..]))
  {
    assert (['\r'] + more)[2..] == more[1..];
  }

  lemma {:induction false} SpacesAreSpaces(n: nat)
    ensures forall k :: 0 <= k < n ==> Spaces(n)[k] == ' '
  {
    if n > 0 { SpacesAreSpaces(n - 1); }
  }

  /** A written value is read back exactly when it has no CR or is put in quotes for another reason. */
  lemma ValueBackExactly(v: string, t: string)
    ensures ParseVal(" " + Quote(v) + EscVal(v) + Quote(v) + "\n" + t, false, false, 0, "") == Some((v, t))
      <==> ('\r' !in v || NeedsQuote(v))
  {
    hide ParseVal;
    if '\r' !in v || NeedsQuote(v) {
      ValueBack(v, t);
    } else {
      var s := EscVal(v) + "\n" + t;
      assert " " + Quote(v) + EscVal(v) + Quote(v) + "\n" + t == [' '] + s;
      ReadSpace(' ', s, 0, "");
      CrIsLost(v, t, 0, "");
    }
  }

  // ---------------------------------------------------------------- names and sections come back

  lemma LowerStep(s: string)
    requires s != ""
    ensures LowerAll(s) == [Lower(s[0])] + LowerAll(s[1..])
  {
  }

  lemma NameStep(c: char, t: string, acc: string)
    requires IsKeyChar(c) && |acc| + 1 < MAXNAME
    ensures ParseName([c] + t, acc) == ParseName(t, acc + [Lower(c)])
  {
    NextIs(c, t);
  }

  lemma NameEnds(c: char, t: string, acc: string)
    requires !IsKeyChar(c) && c != '\r'
    ensures ParseName([c] + t, acc) == Some((acc, c, t))
  {
    NextIs(c, t);
  }

  lemma {:induction false} NameBack(name: string, c: char, t: string, acc: string)
    requires forall i :: 0 <= i < |name| ==> IsKeyChar(name[i])
    requires !IsKeyChar(c) && c != '\r' && |acc| + |name| < MAXNAME
    ensures ParseName(name + ([c] + t), acc) == Some((acc + LowerAll(name), c, t))
    decreases |name|
  {
    hide ParseName, IsKeyChar, Lower;
    if name == "" {
      assert name + ([c] + t) == [c] + t;
      NameEnds(c, t, acc);
      assert acc + LowerAll("") == acc;
    } else {
      var more := name[1..] + ([c] + t);
      assert name + ([c] + t) == [name[0]] + more;
      NameStep(name[0], more, acc);
      NameBack(name[1..], c, t, acc + [Lower(name[0])]);
      LowerFront(acc, name);
    }
  }

  lemma LowerFront(acc: string, s: string)
    requires s != ""
    ensures acc + [Lower(s[0])] + LowerAll(s[1..]) == acc + LowerAll(s)
  {
    hide Lower;
    LowerStep(s);
  }

  lemma PairText(name: string, v: string, t: string)
    requires name != ""
    ensures PairLine(name, v) + t
         == ['\t'] + ([name[0]] + (name[1..] + ([' '] + (['='] + (" " + Quote(v) + EscVal(v) + Quote(v) + "\n" + t)))))
  {
    hide Quote, EscVal;
    var q, e := Quote(v), EscVal(v);
    assert name == [name[0]] + name[1..];
    assert PairLine(name, v) + t == "\t" + (name + (" = " + q + e + q + "\n" + t));
    assert " = " + q + e + q + "\n" + t == [' '] + (['='] + (" " + q + e + q + "\n" + t));
  }

  /** A pair line makes its one call. */
  lemma PairBack(base: string, name: string, v: string, t: string)
    requires (forall i :: 0 <= i < |name| ==> IsKeyChar(name[i])) && name != "" && IsAlpha(name[0])
    requires |base| + |name| < MAXNAME && ('\r' !in v || NeedsQuote(v))
    ensures var more := ParseText(t, base, false);
      ParseText(PairLine(name, v) + t, base, false) == Parsed([(base + LowerAll(name), Some(v))] + more.calls, more.ok)
  {
    hide ParseVal, ParseName, ParseVar, ParseText, Quote, EscVal, PairLine, Lower, LowerAll;
    var value := " " + Quote(v) + EscVal(v) + Quote(v) + "\n" + t;
    var line := name[1..] + ([' '] + (['='] + value));
    PairText(name, v, t);
    NameBack(name[1..], ' ', ['='] + value, base + [Lower(name[0])]);
    LowerFront(base, name);
    ValueBack(v, t);
    VarBack(line, base + [Lower(name[0])], base + LowerAll(name), value, v, t);
    TextVar(name[0], line, base, base + LowerAll(name), v, t);
    TextSpace('\t', [name[0]] + line, base);
  }

  lemma VarBack(line: string, acc: string, name: string, value: string, v: string, t: string)
    requires ParseName(line, acc) == Some((name, ' ', ['='] + value))
    requires ParseVal(value, false, false, 0, "") == Some((v, t))
    ensures ParseVar(line, acc) == Some((name, Some(v), t))
  {
    hide ParseVal, ParseName;
    NextIs('=', value);
    assert SkipBlank('=', value) == ('=', value);
    assert SkipBlank(' ', ['='] + value) == ('=', value);
  }

  lemma TextVar(c: char, line: string, base: string, name: string, v: string, t: string)
    requires IsAlpha(c) && ParseVar(line, base + [Lower(c)]) == Some((name, Some(v), t))
    ensures var more := ParseText(t, base, false);
      ParseText([c] + line, base, false) == Parsed([(name, Some(v))] + more.calls, more.ok)
  {
    hide ParseVar, ParseBase;
    NextIs(c, line);
  }

  lemma TextSpace(c: char, s: string, base: string)
    requires c == '\t' || c == '\n'
    ensures ParseText([c] + s, base, false) == ParseText(s, base, false)
  {
    hide ParseVar, ParseBase;
    NextIs(c, s);
  }

  lemma SubEnds(t: string, acc: string)
    ensures ParseSub(['"'] + t, acc) == Some((acc, t))
  {
    NextIs('"', t);
  }

  lemma SubStep(c: char, t: string, acc: string)
    requires c != '\n' && |acc| + 1 <= MAXNAME / 2 && (c == '\r' ==> t == "" || t[0] != '\n')
    ensures ParseSub((if c == '"' || c == '\\' then ['\\', c] else [c]) + t, acc) == ParseSub(t, acc + [c])
  {
    if c == '"' || c == '\\' {
      assert ['\\', c] + t == ['\\'] + ([c] + t);
      NextIs('\\', [c] + t);
    }
    NextIs(c, t);
  }

  lemma {:induction false} SubBack(sub: string, t: string, acc: string)
    requires '\n' !in sub && (sub == "" || |acc| + |sub| <= MAXNAME / 2)
    ensures ParseSub(EscSub(sub) + ("\"" + t), acc) == Some((acc + sub, t))
    decreases |sub|
  {
    hide ParseSub;
    var tail := "\"" + t;
    if sub == "" {
      assert EscSub(sub) + tail == ['"'] + t;
      SubEnds(t, acc);
      assert acc + sub == acc;
    } else {
      var more := EscSub(sub[1..]) + tail;
      EscSubNoLf(sub[1..], tail);
      SubBack(sub[1..], t, acc + [sub[0]]);
      assert acc + [sub[0]] + sub[1..] == acc + sub;
      var one := if sub[0] == '"' || sub[0] == '\\' then ['\\', sub[0]] else [sub[0]];
      assert EscSub(sub) + tail == one + more;
      SubStep(sub[0], more, acc);
    }
  }

  lemma EscSubNoLf(sub: string, t: string)
    requires '\n' !in sub && t != "" && t[0] != '\n'
    ensures EscSub(sub) + t != "" && (EscSub(sub) + t)[0] != '\n'
  {
  }

  lemma BaseStep(c: char, t: string, acc: string)
    requires IsKeyChar(c) && |acc| <= MAXNAME / 2
    ensures ParseBase([c] + t, acc) == ParseBase(t, acc + [Lower(c)])
  {
    hide ParseExtended;
    NextIs(c, t);
  }

  /** The section's own characters; what ends them comes next. */
  lemma {:induction false} BaseBack(section: string, t: string, acc: string)
    requires (forall i :: 0 <= i < |section| ==> IsKeyChar(section[i])) && |acc| + |section| <= MAXNAME / 2 + 1
    ensures ParseBase(section + t, acc) == ParseBase(t, acc + LowerAll(section))
    decreases |section|
  {
    hide ParseBase, IsKeyChar, Lower;
    if section == "" {
      assert section + t == t && acc + LowerAll("") == acc;
    } else {
      var more := section[1..] + t;
      assert section + t == [section[0]] + more;
      BaseStep(section[0], more, acc);
      BaseBack(section[1..], t, acc + [Lower(section[0])]);
      LowerFront(acc, section);
    }
  }

  lemma BaseEnds(t: string, acc: string)
    ensures ParseBase("]" + t, acc) == Some((acc, t))
  {
    NextIs(']', t);
    assert "]" + t == [']'] + t;
  }

  lemma ExtendedBack(sub: string, t: string, acc: string)
    requires '\n' !in sub && (sub == "" || |acc| + 1 + |sub| <= MAXNAME / 2)
    ensures ParseBase(" \"" + EscSub(sub) + "\"]" + t, acc) == Some((acc + ("." + sub), t))
  {
    hide ParseSub, EscSub;
    var quoted := EscSub(sub) + ("\"" + ("]" + t));
    assert " \"" + EscSub(sub) + "\"]" + t == [' '] + (['"'] + quoted);
    NextIs(' ', ['"'] + quoted);
    NextIs('"', quoted);
    SubBack(sub, "]" + t, acc + ".");
    NextIs(']', t);
    assert "]" + t == [']'] + t;
    assert acc + "." + sub == acc + ("." + sub);
  }

  /** A section header sets the base name. */
  lemma SectionBack(h: Head, t: string, base: string)
    requires ValidHead(h)
    ensures ParseText(Section(h) + t, base, false) == ParseText(t, BaseName(h) + ".", false)
  {
    hide ParseBase, ParseVar, EscSub;
    var ending := if h.sub.Some? then " \"" + EscSub(h.sub.value) + "\"]" + ("\n" + t) else "]" + ("\n" + t);
    assert Section(h) + t == ['['] + (h.section + ending);
    NextIs('[', h.section + ending);
    BaseBack(h.section, ending, "");
    assert "" + LowerAll(h.section) == LowerAll(h.section);
    if h.sub.Some? {
      ExtendedBack(h.sub.value, "\n" + t, LowerAll(h.section));
    } else {
      BaseEnds("\n" + t, LowerAll(h.section));
      assert BaseName(h) == LowerAll(h.section);
    }
    TextSpace('\n', t, BaseName(h) + ".");
    assert "\n" + t == ['\n'] + t;
  }

  // ---------------------------------------------------------------- whole files come back

  datatype Block = Block(head: Head, vars: seq<(string, string)>)

  ghost predicate ValidBlock(b: Block) {
    ValidHead(b.head)
    && forall i :: 0 <= i < |b.vars| ==>
        ValidName(b.head, b.vars[i].0) && ('\r' !in b.vars[i].1 || NeedsQuote(b.vars[i].1))
  }

  function Lines(vars: seq<(string, string)>): string {
    if vars == [] then "" else PairLine(vars[0].0, vars[0].1) + Lines(vars[1..])
  }

  function Text(blocks: seq<Block>): string {
    if blocks == [] then "" else Section(blocks[0].head) + (Lines(blocks[0].vars) + Text(blocks[1..]))
  }

  function CallsOf(h: Head, vars: seq<(string, string)>): seq<(string, Option<string>)> {
    if vars == [] then []
    else [(BaseName(h) + "." + LowerAll(vars[0].0), Some(vars[0].1))] + CallsOf(h, vars[1..])
  }

  function AllCalls(blocks: seq<Block>): seq<(string, Option<string>)> {
    if blocks == [] then [] else CallsOf(blocks[0].head, blocks[0].vars) + AllCalls(blocks[1..])
  }

  lemma {:induction false} LinesBack(h: Head, vars: seq<(string, string)>, t: string)
    requires ValidBlock(Block(h, vars))
    ensures var more := ParseText(t, BaseName(h) + ".", false);
      ParseText(Lines(vars) + t, BaseName(h) + ".", false) == Parsed(CallsOf(h, vars) + more.calls, more.ok)
    decreases |vars|
  {
    hide ParseText, PairLine, LowerAll, IsKeyChar, IsAlpha, NeedsQuote;
    var more := ParseText(t, BaseName(h) + ".", false);
    if vars == [] {
      assert Lines(vars) + t == t && [] + more.calls == more.calls;
    } else {
      var (name, v) := vars[0];
      assert ValidName(h, vars[0].0);
      var rest := Lines(vars[1..]) + t;
      assert Lines(vars) + t == PairLine(name, v) + rest;
      assert ValidBlock(Block(h, vars[1..]));
      LinesBack(h, vars[1..], t);
      PairBack(BaseName(h) + ".", name, v, rest);
      var call := [(BaseName(h) + "." + LowerAll(name), Some(v))];
      assert call + (CallsOf(h, vars[1..]) + more.calls) == call + CallsOf(h, vars[1..]) + more.calls;
    }
  }

  /** A file of written sections and pairs makes one call for each pair, in order, with the names in lower case
      but for the subsection, and every value as it was. */
  lemma {:induction false} FileBack(blocks: seq<Block>, base: string)
    requires forall i :: 0 <= i < |blocks| ==> ValidBlock(blocks[i])
    ensures ParseText(Text(blocks), base, false) == Parsed(AllCalls(blocks), true)
    decreases |blocks|
  {
    hide Section, Lines, CallsOf, ValidBlock;
    if blocks != [] {
      var b, rest := blocks[0], Text(blocks[1..]);
      HeadOk(b);
      SectionBack(b.head, Lines(b.vars) + rest, base);
      LinesBack(b.head, b.vars, rest);
      FileBack(blocks[1..], BaseName(b.head) + ".");
    }
  }

  lemma HeadOk(b: Block)
    requires ValidBlock(b)
    ensures ValidHead(b.head) && b == Block(b.head, b.vars)
  {
  }
}
