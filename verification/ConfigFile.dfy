/** Reading and writing configuration files (config.c:169-406, 1119-1190). */
module ConfigFile {
  import opened Common
  import opened ConfigSpec

  // ---------------------------------------------------------------- writing

  function FirstDot(s: string): (n: nat)
    ensures n <= |s| && '.' !in s[..n] && (n < |s| ==> s[n] == '.')
  {
    if s == "" || s[0] == '.' then 0
    else
      var n := 1 + FirstDot(s[1..]);
      assert s[..n] == [s[0]] + s[1..][..n - 1];
      n
  }

  /** Section and subsection of a key without its last component. */
  function HeadOf(base: string): Head {
    var n := FirstDot(base);
    if n < |base| then Head(base[..n], Some(base[n + 1..])) else Head(base, None)
  }

  method StoreWriteSection(key: string, baselen: nat) returns (sb: string)
    requires baselen <= |key|
    ensures sb == Section(HeadOf(key[..baselen]))
  {
    hide EscSub, FirstDot;
    var base := key[..baselen];
    var dot := FirstDot(base);
    if dot < baselen {
      sb := "[" + key[..dot] + " \"";
      assert key[..dot] == base[..dot];
      ghost var sub := base[dot + 1..];
      ghost var start := sb;
      for i := dot + 1 to baselen
        invariant sb + EscSub(base[i..]) == start + EscSub(sub)
      {
        EscSubStep(base[i..]);
        assert base[i..][1..] == base[i + 1..];
        ghost var more := EscSub(base[i + 1..]);
        if key[i] == '"' || key[i] == '\\' {
          assert sb + (['\\', key[i]] + more) == sb + ['\\'] + [key[i]] + more;
          sb := sb + ['\\'];
        } else {
          assert sb + ([key[i]] + more) == sb + [key[i]] + more;
        }
        sb := sb + [key[i]];
      }
      NoSub(base[baselen..]);
      assert sb + "" == sb;
      sb := sb + "\"]\n";
      assert sb == start + EscSub(sub) + "\"]\n";
    } else {
      sb := "[" + base + "]\n";
    }
  }

  lemma EscSubStep(s: string)
    requires s != ""
    ensures EscSub(s) == (if s[0] == '"' || s[0] == '\\' then ['\\', s[0]] else [s[0]]) + EscSub(s[1..])
  {
  }

  lemma NoSub(s: string)
    requires s == ""
    ensures EscSub(s) == ""
  {
  }

  method StoreWritePair(key: string, baselen: nat, value: string) returns (sb: string)
    requires baselen < |key|
    ensures sb == PairLine(key[baselen + 1..], value)
  {
    hide EscVal, EscOne;
    var quote := "";
    if value != "" && value[0] == ' ' {
      quote := "\"";
    }
    for i := 0 to |value|
      invariant quote == if (value != "" && value[0] == ' ') || ';' in value[..i] || '#' in value[..i] then "\"" else ""
    {
      assert value[..i + 1] == value[..i] + [value[i]];
      if value[i] == ';' || value[i] == '#' {
        quote := "\"";
      }
    }
    assert value[..|value|] == value;
    if value != "" && value[|value| - 1] == ' ' {
      quote := "\"";
    }
    assert quote == Quote(value);
    sb := "\t" + key[baselen + 1..] + " = " + quote;
    ghost var start := sb;
    assert value[0..] == value;
    for i := 0 to |value|
      invariant sb + EscVal(value[i..]) == start + EscVal(value)
    {
      EscValStep(value[i..]);
      assert value[i..][1..] == value[i + 1..];
      var one := WriteOne(value[i]);
      assert sb + (one + EscVal(value[i + 1..])) == sb + one + EscVal(value[i + 1..]);
      sb := sb + one;
    }
    NoVal(value[|value|..]);
    assert sb + "" == sb;
    sb := sb + quote + "\n";
  }

  method WriteOne(c: char) returns (s: string)
    ensures s == EscOne(c)
  {
    s := "";
    match c {
      case '\n' => s := "\\n";
      case '\t' => s := "\\t";
      case _ =>
        if c == '"' || c == '\\' {
          s := "\\";
        }
        s := s + [c];
    }
  }

  lemma EscValStep(v: string)
    requires v != ""
    ensures EscVal(v) == EscOne(v[0]) + EscVal(v[1..])
  {
  }

  lemma NoVal(v: string)
    requires v == ""
    ensures EscVal(v) == ""
  {
  }

  // ---------------------------------------------------------------- reading

  /** What is left after a byte order mark; None for a partial one. */
  function AfterBom(s: string): Option<string> {
    if s == "" || s[0] != '\U{ef}' then Some(s)
    else if |s| >= 3 && s[1] == '\U{bb}' && s[2] == '\U{bf}' then Some(s[3..])
    else None
  }

  function ParseWhole(s: string): Parsed {
    if AfterBom(s).None? then Parsed([], false) else ParseText(AfterBom(s).value, "", false)
  }

  class ConfigFile {
    const data: string
    var pos: nat
    var eof: bool
    const name: array<char>

    constructor (data: string)
      ensures this.data == data && pos == 0 && !eof && Valid() && fresh(name)
    {
      this.data, pos, eof := data, 0, false;
      name := new char[MAXNAME](_ => '\0');
    }

    ghost predicate Valid()
      reads this
    {
      pos <= |data| && name.Length == MAXNAME && (eof ==> pos == |data|)
    }

    ghost function Rest(): string
      reads this
      requires Valid()
    {
      data[pos..]
    }

    method GetNextChar() returns (c: char)
      requires Valid()
      modifies this`pos, this`eof
      ensures Valid() && (c, Rest()) == Next(old(Rest())) && eof == (old(eof) || old(Rest()) == "")
    {
      if pos == |data| {
        eof := true;
        return '\n';
      }
      c := data[pos];
      pos := pos + 1;
      if c == '\r' && pos < |data| && data[pos] == '\n' {
        c := '\n';
        pos := pos + 1;
      }
    }

    method ParseValue() returns (r: Option<string>)
      requires Valid()
      modifies this`pos, this`eof
      ensures Valid()
      ensures var p := ParseVal(old(Rest()), false, false, 0, "");
        if r.None? then p.None? else p == Some((r.value, Rest()))
    {
      hide Next, Spaces, Unescaped, IsSpace;
      var quote, comment, space: nat, buf := false, false, 0, "";
      ghost var p := ParseVal(Rest(), quote, comment, space, buf);
      while true
        invariant Valid() && p == ParseVal(Rest(), quote, comment, space, buf)
        decreases |data| - pos
      {
        ghost var was := Rest();
        EndOfLine(was);
        var c := GetNextChar();
        if c == '\n' {
          return if quote then None else Some(buf);
        }
        if comment {
          continue;
        }
        if IsSpace(c) && !quote {
          if buf != "" {
            space := space + 1;
          }
          continue;
        }
        if !quote && (c == ';' || c == '#') {
          comment := true;
          continue;
        }
        buf := FlushSpaces(buf, space);
        space := 0;
        if c == '\\' {
          var e := GetNextChar();
          if e == '\n' {
            continue;
          }
          var u := Unescaped(e);
          if u.None? {
            return None;
          }
          buf := buf + [u.value];
          continue;
        }
        if c == '"' {
          quote := !quote;
          continue;
        }
        buf := buf + [c];
      }
    }

    static lemma EndOfLine(s: string)
      ensures s == "" ==> Next(s) == ('\n', "")
    {
    }

    static method FlushSpaces(buf0: string, space0: nat) returns (buf: string)
      ensures buf == buf0 + Spaces(space0)
    {
      buf := buf0;
      var space: nat := space0;
      assert buf0 + Spaces(0) == buf0;
      while space > 0
        invariant space <= space0 && buf == buf0 + Spaces(space0 - space)
      {
        assert buf0 + Spaces(space0 - space) + " " == buf0 + (Spaces(space0 - space) + " ");
        buf := buf + " ";
        space := space - 1;
      }
    }

    /** The rest of a variable line; the name is in the buffer. */
    method GetValue(len0: nat) returns (r: Option<(nat, Option<string>)>)
      requires Valid() && 0 < len0 < MAXNAME
      modifies this`pos, this`eof, name
      ensures Valid() && name[..len0] == old(name[..len0])
      ensures var p := ParseVar(old(Rest()), old(name[..len0]));
        if r.None? then p.None? else r.value.0 < MAXNAME && p == Some((name[..r.value.0], r.value.1, Rest()))
    {
      hide Next, IsKeyChar, Lower, ParseVal;
      var len := len0;
      var c;
      ghost var p := ParseName(Rest(), name[..len]);
      while true
        invariant Valid() && len0 <= len < MAXNAME && name[..len0] == old(name[..len0])
        invariant p == ParseName(Rest(), name[..len])
        decreases |data| - pos
      {
        EndOfLine(Rest());
        LfIsNoKey();
        c := GetNextChar();
        if eof {
          break;
        }
        if !IsKeyChar(c) {
          break;
        }
        ghost var before := name[..len];
        name[len] := Lower(c);
        len := len + 1;
        assert name[..len] == before + [Lower(c)];
        if len >= MAXNAME {
          return None;
        }
      }
      while c == ' ' || c == '\t'
        invariant Valid() && name[..len0] == old(name[..len0]) && p == Some((name[..len], p.value.1, p.value.2))
        invariant SkipBlank(p.value.1, p.value.2) == SkipBlank(c, Rest())
        decreases |data| - pos, if c == '\n' then 0 else 1
      {
        EndOfLine(Rest());
        c := GetNextChar();
      }
      var value: Option<string> := None;
      if c != '\n' {
        if c != '=' {
          return None;
        }
        value := ParseValue();
        if value.None? {
          return None;
        }
      }
      r := Some((len, value));
    }

    static lemma LfIsNoKey()
      ensures !IsKeyChar('\n')
    {
    }

    /** A subsection in quotes, behind at least one space. */
    method GetExtendedBaseVar(baselen0: nat, c0: char) returns (r: Option<nat>)
      requires Valid() && baselen0 <= MAXNAME / 2 + 1
      modifies this`pos, this`eof, name
      ensures Valid()
      ensures var p := ParseExtended(old(Rest()), old(name[..baselen0]), c0);
        if r.None? then p.None? else r.value < MAXNAME - 2 && p == Some((name[..r.value], Rest()))
    {
      hide Next, IsSpace;
      var c := c0;
      ghost var q := SkipSpace(Rest(), c);
      while true
        invariant Valid() && name[..] == old(name[..]) && q == SkipSpace(Rest(), c)
        decreases |data| - pos, if c == '\n' then 0 else 1
      {
        if c == '\n' {
          return None;
        }
        EndOfLine(Rest());
        c := GetNextChar();
        if !IsSpace(c) {
          break;
        }
      }
      if c != '"' {
        return None;
      }
      var baselen := baselen0;
      ghost var before := name[..baselen];
      name[baselen] := '.';
      baselen := baselen + 1;
      assert name[..baselen] == before + ".";
      ghost var p := ParseSub(Rest(), name[..baselen]);
      while true
        invariant Valid() && baselen <= MAXNAME / 2 + 2 && p == ParseSub(Rest(), name[..baselen])
        decreases |data| - pos
      {
        EndOfLine(Rest());
        var d := GetNextChar();
        if d == '\n' {
          return None;
        }
        if d == '"' {
          break;
        }
        if d == '\\' {
          d := GetNextChar();
          if d == '\n' {
            return None;
          }
        }
        before := name[..baselen];
        name[baselen] := d;
        baselen := baselen + 1;
        assert name[..baselen] == before + [d];
        if baselen > MAXNAME / 2 {
          return None;
        }
      }
      var d := GetNextChar();
      if d != ']' {
        return None;
      }
      r := Some(baselen);
    }

    /** A section header after its bracket. */
    method GetBaseVar() returns (r: Option<nat>)
      requires Valid()
      modifies this`pos, this`eof, name
      ensures Valid()
      ensures var p := ParseBase(old(Rest()), "");
        if r.None? then p.None? else r.value < MAXNAME - 2 && p == Some((name[..r.value], Rest()))
    {
      hide Next, IsSpace, IsKeyChar, Lower, ParseExtended;
      var baselen: nat := 0;
      ghost var p := ParseBase(Rest(), "");
      assert name[..0] == "";
      while true
        invariant Valid() && baselen <= MAXNAME / 2 + 1 && p == ParseBase(Rest(), name[..baselen])
        decreases |data| - pos
      {
        var c := GetNextChar();
        if eof {
          return None;
        }
        if c == ']' {
          return Some(baselen);
        }
        if IsSpace(c) {
          r := GetExtendedBaseVar(baselen, c);
          return;
        }
        if !IsKeyChar(c) && c != '.' {
          return None;
        }
        if baselen > MAXNAME / 2 {
          return None;
        }
        ghost var before := name[..baselen];
        name[baselen] := Lower(c);
        baselen := baselen + 1;
        assert name[..baselen] == before + [Lower(c)];
      }
    }

    /** A byte order mark at the start is skipped, part of one is an error.  A character that is none is left
        for the loop. */
    method SkipBom() returns (ok: bool)
      requires Valid() && pos == 0 && !eof
      modifies this`pos, this`eof
      ensures Valid() && !eof && ok == AfterBom(data).Some? && (ok ==> Rest() == AfterBom(data).value)
    {
      var mark := ['\U{ef}', '\U{bb}', '\U{bf}'];
      assert data[0..] == data;
      while pos < 3
        invariant Valid() && !eof && pos <= 3 && (pos > 0 ==> data[..pos] == mark[..pos])
        decreases 3 - pos
      {
        if pos == |data| || data[pos] != mark[pos] {
          return pos == 0;
        }
        ghost var at := pos;
        var c := GetNextChar();
        assert data[..at + 1] == data[..at] + [mark[at]];
      }
      ok := true;
    }

    /** Reading the whole file: the calls made, and whether it came to its end. */
    method ParseFile() returns (r: Parsed)
      requires Valid() && pos == 0 && !eof
      modifies this`pos, this`eof, name
      ensures Valid() && r == ParseWhole(data)
    {
      hide Next, IsSpace, IsAlpha, ParseText, ParseBase, ParseVar;
      var calls: seq<(string, Option<string>)> := [];
      var comment, baselen: nat := false, 0;
      var bom := SkipBom();
      if !bom {
        return Parsed([], false);
      }
      assert name[..0] == "";
      ghost var whole := ParseText(Rest(), "", false);
      assert [] + whole.calls == whole.calls;
      while true
        invariant Valid() && baselen < MAXNAME - 1
        invariant var p := ParseText(Rest(), name[..baselen], comment);
          whole == Parsed(calls + p.calls, p.ok)
        decreases |data| - pos, if eof then 0 else 1
      {
        ghost var s, base := Rest(), name[..baselen];
        TextStep(s, base, comment);
        var c := GetNextChar();
        if c == '\n' {
          if eof {
            assert calls + [] == calls;
            return Parsed(calls, true);
          }
          comment := false;
          continue;
        }
        if comment || IsSpace(c) {
          continue;
        }
        if c == '#' || c == ';' {
          comment := true;
          continue;
        }
        if c == '[' {
          var b := GetBaseVar();
          if b.None? || b.value == 0 {
            assert calls + [] == calls;
            return Parsed(calls, false);
          }
          ghost var before := name[..b.value];
          name[b.value] := '.';
          baselen := b.value + 1;
          assert name[..baselen] == before + ".";
          continue;
        }
        if !IsAlpha(c) {
          assert calls + [] == calls;
          return Parsed(calls, false);
        }
        name[baselen] := Lower(c);
        assert name[..baselen + 1] == base + [Lower(c)];
        var v := GetValue(baselen + 1);
        if v.None? {
          assert calls + [] == calls;
          return Parsed(calls, false);
        }
        assert name[..baselen] == name[..baselen + 1][..baselen] == base;
        ghost var more := ParseText(Rest(), base, comment);
        ghost var one := (name[..v.value.0], v.value.1);
        assert calls + ([one] + more.calls) == calls + [one] + more.calls;
        calls := calls + [(name[..v.value.0], v.value.1)];
      }
    }
  }

  /** One step of reading. */
  lemma TextStep(s: string, base: string, comment: bool)
    ensures var (c, rest) := Next(s);
      ParseText(s, base, comment) ==
        if s == "" then Parsed([], true)
        else if c == '\n' then ParseText(rest, base, false)
        else if comment || IsSpace(c) then ParseText(rest, base, comment)
        else if c == '#' || c == ';' then ParseText(rest, base, true)
        else if c == '[' then
          var b := ParseBase(rest, "");
          if b.None? || b.value.0 == "" then Parsed([], false) else ParseText(b.value.1, b.value.0 + ".", comment)
        else if !IsAlpha(c) then Parsed([], false)
        else
          var v := ParseVar(rest, base + [Lower(c)]);
          if v.None? then Parsed([], false)
          else
            var more := ParseText(v.value.2, base, comment);
            Parsed([(v.value.0, v.value.1)] + more.calls, more.ok)
    ensures s == "" ==> Next(s) == ('\n', "")
  {
  }

  /** A new file with one key, read back: one call, with the section and the variable in lower case, the
      subsection untouched and the value as it was. */
  method WriteAndRead(key: string, baselen: nat, value: string) returns (r: Parsed)
    requires baselen < |key| && ValidHead(HeadOf(key[..baselen]))
    requires ValidName(HeadOf(key[..baselen]), key[baselen + 1..])
    requires '\r' !in value || NeedsQuote(value)
    ensures r == Parsed([(BaseName(HeadOf(key[..baselen])) + "." + LowerAll(key[baselen + 1..]), Some(value))], true)
  {
    hide Section, PairLine, HeadOf, ParseText, ParseWhole, ValidName, NeedsQuote, LowerAll, BaseName;
    var section := StoreWriteSection(key, baselen);
    var pair := StoreWritePair(key, baselen, value);
    var cf := new ConfigFile(section + pair);
    r := cf.ParseFile();
    OneBlock(HeadOf(key[..baselen]), key[baselen + 1..], value);
  }

  lemma OneBlock(h: Head, name: string, value: string)
    requires ValidHead(h) && ValidName(h, name) && ('\r' !in value || NeedsQuote(value))
    ensures ParseWhole(Section(h) + PairLine(name, value))
         == Parsed([(BaseName(h) + "." + LowerAll(name), Some(value))], true)
  {
    hide PairLine, ParseText, ValidName, NeedsQuote, LowerAll, BaseName;
    var vars := [(name, value)];
    var b := Block(h, vars);
    assert ValidBlock(b);
    assert vars[1..] == [] && [b][1..] == [];
    var s := Section(h) + PairLine(name, value);
    assert Lines(vars) == PairLine(name, value) + Lines([]) == PairLine(name, value);
    assert Text([b]) == Section(h) + (Lines(vars) + Text([])) == s;
    assert s[0] == '[';
    FileBack([b], "");
    var call := (BaseName(h) + "." + LowerAll(name), Some(value));
    assert CallsOf(h, vars) == [call] + CallsOf(h, []) == [call];
    assert AllCalls([b]) == [call] + AllCalls([]) == [call];
  }
}
