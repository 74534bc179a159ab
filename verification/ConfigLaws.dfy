/** What the configuration parser makes of text that people write: blanks, comments, escapes, continued lines, and
    keys without a value (config.c:169-310, 350-400). */
module ConfigLaws {
  import opened Common
  import opened ConfigSpec

  /** A line of any text: no LF in it. */
  ghost predicate OneLine(s: string) {
    '\n' !in s
  }

  ghost predicate IsBlank(c: char) {
    c == ' ' || c == '\t'
  }

  ghost predicate StartsComment(c: char) {
    c == '#' || c == ';'
  }

  lemma NextInLine(c: char, more: string, t: string)
    requires c != '\r'
    ensures Next([c] + more + "\n" + t) == (c, more + "\n" + t)
  {
    assert ([c] + more + "\n" + t)[1..] == more + "\n" + t;
  }

  // ---------------------------------------------------------------- comments

  lemma {:induction false} CommentRuns(line: string, t: string, base: string)
    requires OneLine(line) && '\r' !in line
    ensures ParseText(line + "\n" + t, base, true) == ParseText(t, base, false)
    decreases |line|
  {
    hide ParseBase, ParseVar;
    if line == "" {
      assert line + "\n" + t == ['\n'] + t;
      NextIs('\n', t);
    } else {
      assert line == [line[0]] + line[1..];
      NextInLine(line[0], line[1..], t);
      CommentRuns(line[1..], t, base);
    }
  }

  /** A comment line changes nothing. */
  lemma CommentLine(c: char, line: string, t: string, base: string)
    requires StartsComment(c) && OneLine(line) && '\r' !in line
    ensures ParseText([c] + line + "\n" + t, base, false) == ParseText(t, base, false)
  {
    hide ParseBase, ParseVar;
    NextInLine(c, line, t);
    CommentRuns(line, t, base);
  }

  /** What ends a value on its line: the LF, or a comment before it. */
  ghost predicate Ending(e: string) {
    OneLine(e) && '\r' !in e && (e != "" ==> StartsComment(e[0]))
  }

  lemma {:induction false} ValueCommentRuns(line: string, t: string, space: nat, buf: string)
    requires OneLine(line) && '\r' !in line
    ensures ParseVal(line + "\n" + t, false, true, space, buf) == Some((buf, t))
    decreases |line|
  {
    if line == "" {
      assert line + "\n" + t == ['\n'] + t;
      NextIs('\n', t);
    } else {
      assert line == [line[0]] + line[1..];
      NextInLine(line[0], line[1..], t);
      ValueCommentRuns(line[1..], t, space, buf);
    }
  }

  lemma ValueEnds(e: string, t: string, space: nat, buf: string)
    requires Ending(e)
    ensures ParseVal(e + "\n" + t, false, false, space, buf) == Some((buf, t))
  {
    if e == "" {
      assert e + "\n" + t == ['\n'] + t;
      NextIs('\n', t);
    } else {
      assert e == [e[0]] + e[1..];
      NextInLine(e[0], e[1..], t);
      ValueCommentRuns(e[1..], t, space, buf);
    }
  }

  // ---------------------------------------------------------------- plain values

  /** Text without quotes, escapes or comments. */
  ghost predicate Plain(v: string) {
    OneLine(v) && '\r' !in v && '"' !in v && '\\' !in v && '#' !in v && ';' !in v
  }

  function TrimStart(v: string): string {
    if v == "" || (v[0] != ' ' && v[0] != '\t') then v else TrimStart(v[1..])
  }

  function TrimEnd(v: string): string {
    if v == "" || (v[|v| - 1] != ' ' && v[|v| - 1] != '\t') then v else TrimEnd(v[..|v| - 1])
  }

  /** Tabs are read as spaces. */
  function Untabbed(v: string): (r: string)
    ensures |r| == |v|
  {
    if v == "" then "" else [if v[0] == '\t' then ' ' else v[0]] + Untabbed(v[1..])
  }

  lemma {:induction false} TrimEndStep(v: string)
    requires v != ""
    ensures TrimEnd(v) ==
      if TrimEnd(v[1..]) != "" then [v[0]] + TrimEnd(v[1..]) else if IsBlank(v[0]) then "" else [v[0]]
  {
    var n := |v| - 1;
    if n > 0 && IsBlank(v[n]) {
      assert v[..n][1..] == v[1..][..n - 1];
      TrimEndStep(v[..n]);
    } else if n == 0 {
      assert v[..0] == "" && v == [v[0]];
    } else {
      assert v == [v[0]] + v[1..];
    }
  }

  function ValueOf(v: string, space: nat, buf: string): string {
    var w := TrimEnd(v);
    if w == "" then buf else if buf == "" then Untabbed(TrimStart(w)) else buf + Spaces(space) + Untabbed(w)
  }

  /** What has been read of a plain value so far, and what it comes to at the end. */
  lemma {:induction false} PlainRuns(v: string, e: string, t: string, space: nat, buf: string)
    requires Plain(v) && Ending(e) && (buf == "" ==> space == 0)
    ensures ParseVal(v + (e + "\n" + t), false, false, space, buf) == Some((ValueOf(v, space, buf), t))
    decreases |v|
  {
    hide ParseVal, Ending;
    var tail := e + "\n" + t;
    if v == "" {
      assert v + tail == tail;
      ValueEnds(e, t, space, buf);
    } else {
      var c, more := v[0], v[1..];
      assert v + tail == [c] + (more + tail);
      PlainStep(c, more + tail, space, buf);
      if IsBlank(c) {
        var space' := if buf != "" then space + 1 else space;
        PlainRuns(more, e, t, space', buf);
        BlankCounts(v, space, buf);
      } else {
        var buf' := buf + Spaces(space) + [c];
        PlainRuns(more, e, t, 0, buf');
        LetterCounts(v, space, buf);
      }
    }
  }

  lemma PlainStep(c: char, t: string, space: nat, buf: string)
    requires Plain([c])
    ensures ParseVal([c] + t, false, false, space, buf) ==
      if IsBlank(c) then ParseVal(t, false, false, if buf != "" then space + 1 else space, buf)
      else ParseVal(t, false, false, 0, buf + Spaces(space) + [c])
  {
    hide Spaces;
    assert c in [c];
    NextIs(c, t);
  }

  lemma BlankCounts(v: string, space: nat, buf: string)
    requires v != "" && IsBlank(v[0])
    ensures ValueOf(v, space, buf) == ValueOf(v[1..], if buf != "" then space + 1 else space, buf)
  {
    hide Untabbed, TrimStart, TrimEnd, Spaces;
    TrimEndStep(v);
    var w := TrimEnd(v[1..]);
    if w != "" {
      BlankFirst(v[0], w);
      MoreSpace(buf, space, Untabbed(w));
    }
  }

  lemma BlankFirst(c: char, w: string)
    requires IsBlank(c)
    ensures TrimStart([c] + w) == TrimStart(w) && Untabbed([c] + w) == " " + Untabbed(w)
  {
    assert ([c] + w)[1..] == w;
  }

  lemma MoreSpace(buf: string, space: nat, more: string)
    ensures buf + Spaces(space) + (" " + more) == buf + Spaces(space + 1) + more
  {
    assert Spaces(space + 1) == Spaces(space) + " ";
  }

  lemma LetterCounts(v: string, space: nat, buf: string)
    requires v != "" && !IsBlank(v[0]) && (buf == "" ==> space == 0)
    ensures ValueOf(v, space, buf) == ValueOf(v[1..], 0, buf + Spaces(space) + [v[0]])
  {
    hide Untabbed, TrimStart, TrimEnd;
    TrimEndStep(v);
    NoSpaces();
    var c, w, buf' := v[0], TrimEnd(v[1..]), buf + Spaces(space) + [v[0]];
    assert TrimEnd(v) == [c] + w by { if w == "" { assert [c] + w == [c]; } }
    LetterFirst(c, w);
    assert buf + Spaces(space) + ([c] + Untabbed(w)) == buf' + Spaces(0) + Untabbed(w);
    if buf == "" { assert buf' == [c]; }
  }

  lemma LetterFirst(c: char, w: string)
    requires !IsBlank(c)
    ensures TrimStart([c] + w) == [c] + w && Untabbed([c] + w) == [c] + Untabbed(w)
    ensures w == "" ==> [c] + Untabbed(w) == [c]
  {
    assert ([c] + w)[1..] == w;
  }

  /** A plain value is what stands between the blanks at its ends, with its tabs read as spaces. */
  lemma PlainValue(v: string, e: string, t: string)
    requires Plain(v) && Ending(e)
    ensures ParseVal(v + (e + "\n" + t), false, false, 0, "") == Some((Untabbed(TrimStart(TrimEnd(v))), t))
  {
    PlainRuns(v, e, t, 0, "");
  }

  /** A key that fits the name buffer behind the section's name. */
  ghost predicate IsKey(base: string, name: string) {
    && name != "" && ('a' <= name[0] <= 'z' || 'A' <= name[0] <= 'Z') && |base| + |name| < 256
    && forall i :: 0 <= i < |name| ==>
      'a' <= name[i] <= 'z' || 'A' <= name[i] <= 'Z' || '0' <= name[i] <= '9' || name[i] == '-'
  }

  /** Names are read in lower case. */
  lemma Lowered(name: string, i: nat)
    requires i < |name|
    ensures LowerAll(name)[i] ==
      if 'A' <= name[i] <= 'Z' then "abcdefghijklmnopqrstuvwxyz"[name[i] as int - 'A' as int] else name[i]
  {
  }

  lemma KeyName(base: string, name: string, c: char, t: string)
    requires IsKey(base, name) && (c == ' ' || c == '\n')
    ensures name != "" && IsAlpha(name[0])
    ensures ParseName(name[1..] + ([c] + t), base + [Lower(name[0])]) == Some((base + LowerAll(name), c, t))
  {
    hide ParseName, Lower, LowerAll;
    NameBack(name[1..], c, t, base + [Lower(name[0])]);
    LowerFront(base, name);
  }

  /** A line in which a key is given a plain value, with or without a comment behind it. */
  lemma PlainLine(base: string, name: string, v: string, e: string, t: string)
    requires IsKey(base, name) && Plain(v) && Ending(e)
    ensures var more, value := ParseText(t, base, false), Untabbed(TrimStart(TrimEnd(v)));
      ParseText(name + (" =" + (v + (e + "\n" + t))), base, false)
        == Parsed([(base + LowerAll(name), Some(value))] + more.calls, more.ok)
  {
    hide ParseVal, ParseText, IsKey, Ending, Plain, TrimStart, TrimEnd, Untabbed;
    PlainValue(v, e, t);
    LineReads(base, name, v + (e + "\n" + t), Untabbed(TrimStart(TrimEnd(v))), t);
  }

  /** A key, an equals sign, and what the value is read from. */
  lemma LineReads(base: string, name: string, tail: string, value: string, t: string)
    requires IsKey(base, name) && ParseVal(tail, false, false, 0, "") == Some((value, t))
    ensures var more := ParseText(t, base, false);
      ParseText(name + (" =" + tail), base, false)
        == Parsed([(base + LowerAll(name), Some(value))] + more.calls, more.ok)
  {
    hide ParseVal, ParseName, ParseVar, ParseText, Lower, LowerAll, IsKey, IsAlpha;
    KeyName(base, name, ' ', ['='] + tail);
    var line := name[1..] + ([' '] + (['='] + tail));
    assert name + (" =" + tail) == [name[0]] + line by { assert " =" + tail == [' '] + (['='] + tail); }
    VarBack(line, base + [Lower(name[0])], base + LowerAll(name), tail, value, t);
    TextVar(name[0], line, base, base + LowerAll(name), value, t);
  }

  /** A key alone makes a call without a value. */
  lemma BareKey(base: string, name: string, t: string)
    requires IsKey(base, name)
    ensures var more := ParseText(t, base, false);
      ParseText(name + (['\n'] + t), base, false) == Parsed([(base + LowerAll(name), None)] + more.calls, more.ok)
  {
    hide ParseName, ParseVar, ParseText, Lower, LowerAll, IsKey, IsAlpha;
    KeyName(base, name, '\n', t);
    var line := name[1..] + (['\n'] + t);
    assert name + (['\n'] + t) == [name[0]] + line;
    BareVar(line, base + [Lower(name[0])], base + LowerAll(name), t);
    BareText(name[0], line, base, base + LowerAll(name), t);
  }

  lemma BareVar(line: string, acc: string, name: string, t: string)
    requires ParseName(line, acc) == Some((name, '\n', t))
    ensures ParseVar(line, acc) == Some((name, None, t))
  {
    hide ParseVal, ParseName;
    assert SkipBlank('\n', t) == ('\n', t);
  }

  lemma BareText(c: char, line: string, base: string, name: string, t: string)
    requires IsAlpha(c) && ParseVar(line, base + [Lower(c)]) == Some((name, None, t))
    ensures var more := ParseText(t, base, false);
      ParseText([c] + line, base, false) == Parsed([(name, None)] + more.calls, more.ok)
  {
    hide ParseVar, ParseBase;
    NextIs(c, line);
  }

  // ---------------------------------------------------------------- escapes

  /** The characters that may follow a backslash, and what they stand for; the LF stands for nothing, so that the
      value goes on in the next line.  Any other is an error. */
  lemma Escape(e: char, t: string, quote: bool, space: nat, buf: string)
    requires e != '\r'
    ensures var r := ParseVal(['\\', e] + t, quote, false, space, buf);
      if e == '\n' then r == ParseVal(t, quote, false, 0, buf + Spaces(space))
      else if e == 'n' then r == ParseVal(t, quote, false, 0, buf + Spaces(space) + "\n")
      else if e == 't' then r == ParseVal(t, quote, false, 0, buf + Spaces(space) + "\t")
      else if e == 'b' then r == ParseVal(t, quote, false, 0, buf + Spaces(space) + ['\U{8}'])
      else if e == '\\' || e == '"' then r == ParseVal(t, quote, false, 0, buf + Spaces(space) + [e])
      else r == None
  {
    hide Spaces;
    assert ['\\', e] + t == ['\\'] + ([e] + t);
    NextIs('\\', [e] + t);
    NextIs(e, t);
  }

  /** A line may also be continued before a CRLF, and quotes must be closed before the line ends. */
  lemma LineEndings(t: string, space: nat, buf: string)
    ensures ParseVal("\\\r\n" + t, false, false, space, buf) == ParseVal(t, false, false, 0, buf + Spaces(space))
    ensures ParseVal("\n" + t, true, false, space, buf) == None && ParseVal("", true, false, space, buf) == None
    ensures ParseVal("", false, false, space, buf) == Some((buf, ""))
  {
    hide Spaces;
    var s := "\\\r\n" + t;
    assert s[1..] == "\r\n" + t && (s[1..])[2..] == t;
    assert Next(s) == ('\\', s[1..]);
    assert Next(s[1..]) == ('\n', t);
    assert Next("\n" + t).0 == '\n';
  }

  // ---------------------------------------------------------------- sections and errors

  /** A dot belongs to a section's own name. */
  lemma DottedSection(t: string, acc: string)
    requires |acc| <= 128
    ensures ParseBase("." + t, acc) == ParseBase(t, acc + ".")
  {
    hide ParseExtended;
    NextIs('.', t);
    assert "." + t == ['.'] + t;
  }

  /** A line starts with a letter, a bracket or a comment, or nothing of it and behind it is read. */
  lemma BadStart(c: char, t: string, base: string)
    requires !('a' <= c <= 'z' || 'A' <= c <= 'Z') && c !in " \t\r\n[#;"
    ensures ParseText([c] + t, base, false) == Parsed([], false)
  {
    hide ParseBase, ParseVar;
    NextIs(c, t);
  }
}
