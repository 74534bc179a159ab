/** Turning LF line endings into CRLF, as one function of the text (convert.c:276-333). */
module CrlfSpec {

  type Text = seq<char>

  const CR := '\r'
  const LF := '\n'

  /** A CR that was read but not passed on. */
  function Pending(wasCr: bool): Text {
    if wasCr then [CR] else []
  }

  /** Every LF without a CR before it gets one.  `wasCr` says that a CR was read and not passed on yet. */
  function Crlf(wasCr: bool, s: Text): Text
    decreases |s|
  {
    if s == [] then Pending(wasCr)
    else if s[0] == LF then [CR, LF] + Crlf(false, s[1..])
    else if s[0] == CR then Pending(wasCr) + Crlf(true, s[1..])
    else Pending(wasCr) + [s[0]] + Crlf(false, s[1..])
  }

  /** The number of LFs, of CRs followed by LF, and of LFs without a CR before them. */
  function Lfs(s: Text): nat {
    if s == [] then 0 else Lfs(s[1..]) + if s[0] == LF then 1 else 0
  }

  function Crlfs(s: Text): nat {
    if s == [] then 0 else Crlfs(s[1..]) + if s[0] == CR && |s| > 1 && s[1] == LF then 1 else 0
  }

  function BareLfs(wasCr: bool, s: Text): nat
    decreases |s|
  {
    if s == [] then 0 else BareLfs(s[0] == CR, s[1..]) + if s[0] == LF && !wasCr then 1 else 0
  }

  lemma {:induction false} BareIsDifference(wasCr: bool, s: Text)
    ensures BareLfs(wasCr, s) + Crlfs(s) + (if wasCr && s != [] && s[0] == LF then 1 else 0) == Lfs(s)
    decreases |s|
  {
    if s != [] { BareIsDifference(s[0] == CR, s[1..]); }
  }

  /** Text whose LFs all have their CR is left alone. */
  lemma {:induction false} NothingToDo(wasCr: bool, s: Text)
    requires BareLfs(wasCr, s) == 0
    ensures Crlf(wasCr, s) == Pending(wasCr) + s
    decreases |s|
  {
    if s != [] {
      NothingToDo(s[0] == CR, s[1..]);
      assert s == [s[0]] + s[1..];
    }
  }

  lemma {:induction false} BareMonotone(s: Text)
    ensures BareLfs(true, s) <= BareLfs(false, s)
  {
  }

  lemma BareStep(wasCr: bool, c: char, s: Text)
    ensures BareLfs(wasCr, [c] + s) == BareLfs(c == CR, s) + if c == LF && !wasCr then 1 else 0
  {
    assert ([c] + s)[1..] == s;
  }

  lemma {:induction false} NoBareLeft(wasCr: bool, s: Text)
    ensures BareLfs(false, Crlf(wasCr, s)) == 0
    decreases |s|
  {
    hide BareLfs;
    BareStep(false, CR, []);
    assert [CR] + [] == [CR];
    NothingBare(true);
    NothingBare(false);
    if s != [] {
      var c := s[0];
      var rest := Crlf(c == CR, s[1..]);
      NoBareLeft(c == CR, s[1..]);
      BareMonotone(rest);
      if c == LF {
        assert [CR, LF] + rest == [CR] + ([LF] + rest);
        BareStep(false, CR, [LF] + rest);
        BareStep(true, LF, rest);
      } else if c == CR {
        BareStep(false, CR, rest);
        assert Pending(false) + rest == rest;
      } else {
        assert Pending(wasCr) + [c] + rest == if wasCr then [CR] + ([c] + rest) else [c] + rest;
        BareStep(false, CR, [c] + rest);
        BareStep(wasCr, c, rest);
      }
    }
  }

  lemma NothingBare(wasCr: bool)
    ensures BareLfs(wasCr, []) == 0
  {
  }

  /** Converting twice changes nothing more. */
  lemma CrlfIsIdempotent(wasCr: bool, s: Text)
    ensures Crlf(false, Crlf(wasCr, s)) == Crlf(wasCr, s)
  {
    NoBareLeft(wasCr, s);
    NothingToDo(false, Crlf(wasCr, s));
  }

  // ---------------------------------------------------------------- one line at a time

  /** What a line becomes, its LF included. */
  function LineEnd(wasCr: bool, line: Text): Text {
    if line == [] then [CR, LF]
    else Pending(wasCr) + line + if line[|line| - 1] == CR then [LF] else [CR, LF]
  }

  lemma {:induction false} CrlfLine(wasCr: bool, line: Text, rest: Text)
    requires LF !in line
    ensures Crlf(wasCr, line + [LF] + rest) == LineEnd(wasCr, line) + Crlf(false, rest)
    decreases |line|
  {
    if line == [] {
      assert line + [LF] + rest == [LF] + rest;
    } else {
      var c, tail := line[0], line[1..];
      assert (line + [LF] + rest)[1..] == tail + [LF] + rest;
      CrlfLine(c == CR, tail, rest);
      LineEndStep(wasCr, line);
    }
  }

  lemma LineEndStep(wasCr: bool, line: Text)
    requires line != [] && LF !in line
    ensures LineEnd(wasCr, line)
         == Pending(wasCr) + (if line[0] == CR then [] else [line[0]]) + LineEnd(line[0] == CR, line[1..])
  {
    assert line == [line[0]] + line[1..];
  }

  lemma {:induction false} CrlfLastLine(wasCr: bool, line: Text)
    requires LF !in line
    ensures Crlf(wasCr, line) == Pending(wasCr) + line
    decreases |line|
  {
    if line != [] {
      CrlfLastLine(line[0] == CR, line[1..]);
      assert line == [line[0]] + line[1..];
    }
  }
}
