/** Line-ending conversion on checkout: the whole-buffer form and the streaming filter
    (convert.c:98-122, 276-333, 932-1009, 1287-1310; streaming.c:190-247). */
module Convert {
  import opened Common
  import opened CrlfSpec

  datatype Action = Guess | Binary | TextAction | InputAction | CrlfAction | Auto

  datatype AutoCrlf = AutoFalse | AutoTrue | AutoInput

  datatype Eol = Unset | CrlfEol | LfEol

  /** core.autocrlf, core.eol, and the platform's own line ending. */
  datatype Config = Config(autoCrlf: AutoCrlf, coreEol: Eol, native: Eol)

  function OutputEol(action: Action, cfg: Config): Eol {
    match action
    case Binary => Unset
    case CrlfAction => CrlfEol
    case InputAction => LfEol
    case _ =>
      if action == Guess && cfg.autoCrlf == AutoFalse then Unset
      else if cfg.autoCrlf == AutoTrue then CrlfEol
      else if cfg.autoCrlf == AutoInput then LfEol
      else if cfg.coreEol == Unset then cfg.native
      else cfg.coreEol
  }

  datatype Stats = Stats(nul: nat, cr: nat, lf: nat, crlf: nat, printable: nat, nonprintable: nat)

  /** What a character counts as; DEL and most control characters are not printable. */
  datatype Kind = NulChar | CrChar | LfChar | Printable | NonPrintable

  function KindOf(c: char): Kind {
    if c == '\0' then NulChar
    else if c == CR then CrChar
    else if c == LF then LfChar
    else if c == '\U{08}' || c == '\t' || c == '\U{1b}' || c == '\U{0c}' then Printable
    else if c < ' ' || c == '\U{7f}' then NonPrintable
    else Printable
  }

  function CountOf(s: Text, kind: Kind): nat {
    if s == [] then 0 else (if KindOf(s[0]) == kind then 1 else 0) + CountOf(s[1..], kind)
  }

  /** The text ends with the old end-of-file character. */
  predicate EndsWithEof(s: Text) {
    |s| >= 1 && s[|s| - 1] == '\U{1a}'
  }

  /** NULs count as not printable too; an end-of-file character at the end does not. */
  function NonPrintables(s: Text): int {
    CountOf(s, NulChar) + CountOf(s, NonPrintable) - if EndsWithEof(s) then 1 else 0
  }

  /** The counts of what is in front of `i`. */
  ghost predicate CountedTo(s: Text, i: nat, st: Stats)
    requires i <= |s|
  {
    var rest := s[i..];
    && st.nul + CountOf(rest, NulChar) == CountOf(s, NulChar)
    && st.cr + CountOf(rest, CrChar) == CountOf(s, CrChar)
    && st.lf + Lfs(rest) == Lfs(s) && st.crlf + Crlfs(rest) == Crlfs(s)
    && st.printable + CountOf(rest, Printable) == CountOf(s, Printable)
    && st.nonprintable + CountOf(rest, NulChar) + CountOf(rest, NonPrintable)
       == CountOf(s, NulChar) + CountOf(s, NonPrintable)
  }

  lemma {:induction false} EofCounts(s: Text)
    requires EndsWithEof(s)
    ensures CountOf(s, NonPrintable) > 0
  {
    if |s| > 1 {
      EofCounts(s[1..]);
    }
  }

  method GatherStats(s: Text) returns (st: Stats)
    ensures st.nul == CountOf(s, NulChar) && st.cr == CountOf(s, CrChar)
    ensures st.lf == Lfs(s) && st.crlf == Crlfs(s)
    ensures st.printable == CountOf(s, Printable) && st.nonprintable == NonPrintables(s)
  {
    st := Stats(0, 0, 0, 0, 0, 0);
    assert s[0..] == s;
    for i := 0 to |s|
      invariant CountedTo(s, i, st)
    {
      var c := s[i];
      assert s[i..][1..] == s[i + 1..];
      if c == CR {
        st := st.(cr := st.cr + 1);
        if i + 1 < |s| && s[i + 1] == LF {
          st := st.(crlf := st.crlf + 1);
        }
        continue;
      }
      if c == LF {
        st := st.(lf := st.lf + 1);
        continue;
      }
      if c == '\U{7f}' {
        st := st.(nonprintable := st.nonprintable + 1);
      } else if c < ' ' {
        if c == '\U{08}' || c == '\t' || c == '\U{1b}' || c == '\U{0c}' {
          st := st.(printable := st.printable + 1);
        } else {
          if c == '\0' {
            st := st.(nul := st.nul + 1);
          }
          st := st.(nonprintable := st.nonprintable + 1);
        }
      } else {
        st := st.(printable := st.printable + 1);
      }
    }
    if |s| >= 1 && s[|s| - 1] == '\U{1a}' {
      EofCounts(s);
      st := st.(nonprintable := st.nonprintable - 1);
    }
  }

  predicate IsBinary(st: Stats) {
    st.nul > 0 || st.printable / 128 < st.nonprintable
  }

  /** A NUL, or more than one character in 128 that is not printable. */
  predicate LooksBinary(s: Text) {
    CountOf(s, NulChar) > 0 || CountOf(s, Printable) / 128 < NonPrintables(s)
  }

  /** The first LF at or after `from`. */
  method MemChr(s: Text, from: nat) returns (nl: Option<nat>)
    requires from <= |s|
    ensures nl.Some? ==> from <= nl.value < |s| && s[nl.value] == LF && LF !in s[from..nl.value]
    ensures nl.None? ==> LF !in s[from..]
  {
    for i := from to |s|
      invariant LF !in s[from..i]
    {
      if s[i] == LF {
        return Some(i);
      }
    }
    return None;
  }

  /** The line from `p` to its LF at `n`, as it goes out. */
  function Completed(src: Text, p: nat, n: nat): Text
    requires p <= n < |src|
  {
    if n > p && src[n - 1] == CR then src[p..n + 1] else src[p..n] + [CR, LF]
  }

  lemma CompletesLine(src: Text, p: nat, n: nat)
    requires p <= n < |src| && src[n] == LF && LF !in src[p..n]
    ensures Crlf(false, src[p..]) == Completed(src, p, n) + Crlf(false, src[n + 1..])
  {
    hide Crlf;
    var line := src[p..n];
    assert src[p..] == line + [LF] + src[n + 1..];
    CrlfLine(false, line, src[n + 1..]);
    if n > p {
      assert line[|line| - 1] == src[n - 1];
      assert src[p..n + 1] == line + [LF];
    }
    assert Pending(false) + line == line;
  }

  /** Copies the text line by line, completing bare LFs. */
  method AddCrs(src: Text) returns (buf: Text)
    ensures buf == Crlf(false, src)
  {
    hide Crlf, Completed;
    buf := [];
    var p := 0;
    assert src[0..] == src;
    while true
      invariant p <= |src| && Crlf(false, src) == buf + Crlf(false, src[p..])
      decreases |src| - p
    {
      var nl := MemChr(src, p);
      if nl.None? {
        CrlfLastLine(false, src[p..]);
        buf := buf + src[p..];
        return;
      }
      var n := nl.value;
      CompletesLine(src, p, n);
      ghost var rest := Crlf(false, src[n + 1..]);
      assert buf + (Completed(src, p, n) + rest) == buf + Completed(src, p, n) + rest;
      buf := buf + Completed(src, p, n);
      p := n + 1;
    }
  }

  /** There is something to convert, and for the guessing actions it is safe to: no CR without an LF, not binary, and
      without an attribute no CR at all. */
  predicate Converts(src: Text, action: Action) {
    && Lfs(src) != Crlfs(src)
    && (action == Auto || action == Guess ==> CountOf(src, CrChar) == Crlfs(src) && !LooksBinary(src))
    && (action == Guess ==> CountOf(src, CrChar) == 0)
  }

  /** core.autocrlf decides when it is set, then core.eol, then the platform. */
  ghost predicate AsksForCrlf(cfg: Config) {
    match cfg.autoCrlf
    case AutoTrue => true
    case AutoInput => false
    case AutoFalse => cfg.coreEol == CrlfEol || (cfg.coreEol == Unset && cfg.native == CrlfEol)
  }

  /** The whole-buffer conversion; `None` leaves the text as it is.  The crlf attribute always asks for CRLF and the
      binary and input ones never do; the text attribute leaves it to core.autocrlf, then core.eol, then the platform,
      and so does auto for text it finds safe; without an attribute only core.autocrlf=true does. */
  method CrlfToWorktree(src: Text, action: Action, cfg: Config) returns (r: Option<Text>)
    ensures r.Some? ==> r.value == Crlf(false, src)
    ensures action == Binary || action == InputAction ==> r == None
    ensures action == CrlfAction ==> (if r.Some? then r.value else src) == Crlf(false, src)
    ensures action == TextAction && AsksForCrlf(cfg) ==> (if r.Some? then r.value else src) == Crlf(false, src)
    ensures action == TextAction && !AsksForCrlf(cfg) ==> r == None
    ensures action == Auto ==> (r.Some? <==> AsksForCrlf(cfg) && Converts(src, Auto))
    ensures action == Guess ==> (r.Some? <==> cfg.autoCrlf == AutoTrue && Converts(src, Guess))
    ensures action != Auto && action != Guess && r.Some? ==> Lfs(src) != Crlfs(src)
  {
    hide NonPrintables;
    if |src| == 0 || OutputEol(action, cfg) != CrlfEol {
      return None;
    }
    var stats := GatherStats(src);
    BareIsDifference(false, src);
    if stats.lf == 0 || stats.lf == stats.crlf {
      NothingToDo(false, src);
      return None;
    }
    if action == Auto || action == Guess {
      if action == Guess && (stats.cr > 0 || stats.crlf > 0) {
        return None;
      }
      if stats.cr != stats.crlf || IsBinary(stats) {
        return None;
      }
    }
    var buf := AddCrs(src);
    return Some(buf);
  }

  // ---------------------------------------------------------------- the streaming filter

  /** What is still to come out, given the held character and the text still to go in. */
  function Owed(hasHeld: bool, held: char, s: Text): Text {
    if !hasHeld then Crlf(false, s)
    else if held == CR then Crlf(true, s)
    else [held] + Crlf(false, s)
  }

  class LfToCrlf {
    var hasHeld: bool
    var held: char

    constructor ()
      ensures !hasHeld
    {
      hasHeld, held := false, '\0';
    }

    /** Feeds `input` into an output buffer of `osize` characters.  Whatever text follows, nothing of what
        is owed is lost, repeated or reordered, with one exception: feeding no characters at all while
        holding something other than a CR forgets to report the held character, which is then lost. */
    method Feed(input: Text, osize: nat, ghost future: Text) returns (out: Text, consumed: nat)
      requires osize > 0
      modifies this
      ensures |out| <= osize && consumed <= |input|
      ensures input != [] || !old(hasHeld) || old(held) == CR ==>
        old(Owed(hasHeld, held, input + future)) == out + Owed(hasHeld, held, input[consumed..] + future)
      ensures input == [] && old(hasHeld) && old(held) != CR ==>
        out == [] && old(Owed(hasHeld, held, future)) == [old(held)] + Owed(hasHeld, held, future)
      ensures osize > 1 && input != [] ==> consumed > 0
      ensures input != [] ==> consumed > 0 || |out| > 0
    {
      hide Crlf;
      out, consumed := [], 0;
      if hasHeld && held != CR {
        out := [held];
        hasHeld := false;
      }
      assert input[0..] == input;
      if |input| == 0 && !hasHeld {
        return [], 0;
      }
      var wasCr := hasHeld;
      hasHeld := false;
      while |out| < osize && consumed < |input|
        invariant |out| <= osize && consumed <= |input|
        invariant hasHeld ==> |out| == osize
        invariant consumed == 0 ==> |out| <= 1 && !hasHeld
        invariant old(Owed(hasHeld, held, input + future)) == out + Held(wasCr, input[consumed..] + future)
        decreases |input| - consumed
      {
        ghost var rest := input[consumed + 1..] + future;
        assert input[consumed..] + future == [input[consumed]] + rest;
        out, wasCr := TakeChar(input[consumed], wasCr, out, osize, rest);
        consumed := consumed + 1;
      }
      if !hasHeld && wasCr {
        hasHeld, held := true, CR;
      }
    }

    /** What is owed in the middle of a call, when a CR may be pending in `wasCr` instead. */
    ghost function Held(wasCr: bool, s: Text): Text
      reads this
    {
      if hasHeld then Owed(true, held, s) else Crlf(wasCr, s)
    }

    /** One turn of the filter loop. */
    method TakeChar(ch: char, wasCr: bool, out: Text, osize: nat, ghost rest: Text) returns (more: Text, isCr: bool)
      requires |out| < osize && !hasHeld
      modifies this
      ensures |out| <= |more| <= osize && (hasHeld ==> |more| == osize)
      ensures out + Crlf(wasCr, [ch] + rest) == more + Held(isCr, rest)
    {
      hide Crlf;
      CrlfStep(wasCr, ch, rest);
      more, isCr := out, wasCr;
      if ch == LF || wasCr {
        more := more + [CR];
      }
      if osize <= |more| {
        hasHeld, held := true, ch;
        return;
      }
      if ch == CR {
        isCr := true;
        return;
      }
      isCr := false;
      more := more + [ch];
    }

    /** Told to drain, the filter hands over what it still holds. */
    method Drain() returns (out: Text)
      modifies this
      ensures |out| <= 1 && !hasHeld && old(Owed(hasHeld, held, [])) == out
      ensures out == [] <==> old(!hasHeld)
    {
      out := [];
      if hasHeld {
        out := [held];
        hasHeld := false;
      }
    }
  }

  /** An LF into room for one character, then a call without input: of the CR and LF that are due the LF never comes
      out. */
  method HeldIsLost() returns (out: Text)
    ensures out == [CR] && Crlf(false, [LF]) == [CR, LF]
  {
    var f := new LfToCrlf();
    var first, n := f.Feed([LF], 1, []);
    assert [LF] + [] == [LF] && Crlf(false, [LF]) == [CR, LF] + Crlf(false, []);
    NothingOwed(f.hasHeld, f.held);
    assert [LF][n..] + [] == [];
    assert [CR, LF] == first + if f.hasHeld then [f.held] else [];
    assert |first| == 1 && ([CR, LF])[..1] == first && first == [CR];
    var second, _ := f.Feed([], 1, []);
    NothingOwed(f.hasHeld, f.held);
    var last := f.Drain();
    out := first + second + last;
  }

  /** One character of text: a CR is due before an LF, or before anything else if one was pending. */
  lemma CrlfStep(wasCr: bool, ch: char, rest: Text)
    ensures Crlf(wasCr, [ch] + rest)
         == (if ch == LF || wasCr then [CR] else [])
          + (if ch == CR then Crlf(true, rest) else [ch] + Crlf(false, rest))
  {
    assert ([ch] + rest)[1..] == rest;
  }

  lemma NothingOwed(hasHeld: bool, held: char)
    ensures Owed(hasHeld, held, []) == if hasHeld then [held] else []
  {
  }

  // ---------------------------------------------------------------- reading through the filter

  const FILTER_BUFFER := 1024 * 16

  class FilteredStream {
    var upstream: Text
    const filter: LfToCrlf
    var ibuf: Text
    var obuf: Text
    var inputFinished: bool

    ghost predicate Valid()
      reads this
    {
      |ibuf| <= FILTER_BUFFER && |obuf| <= FILTER_BUFFER && (inputFinished ==> upstream == [] && ibuf == [])
    }

    /** Everything a reader has still to see. */
    ghost function Remaining(): Text
      reads this, filter
    {
      obuf + Owed(filter.hasHeld, filter.held, ibuf + upstream)
    }

    constructor (text: Text)
      ensures Valid() && fresh(filter) && Remaining() == Crlf(false, text)
    {
      upstream, ibuf, obuf, inputFinished := text, [], [], false;
      filter := new LfToCrlf();
      new;
      assert ibuf + upstream == text;
    }

    /** The upstream hands over as many characters as it likes, at least one unless it is at its end. */
    method ReadUpstream()
      requires Valid() && ibuf == []
      modifies this`upstream, this`ibuf
      ensures Valid() && ibuf + upstream == old(upstream) && (ibuf == [] <==> old(upstream) == [])
    {
      if upstream != [] {
        var n :| 0 < n <= |upstream| && n <= FILTER_BUFFER;
        ibuf, upstream := upstream[..n], upstream[n..];
      }
    }

    /** One turn of the read loop with the output buffer empty: feed, drain or refill. */
    method Advance() returns (done: bool)
      requires Valid() && obuf == []
      modifies this`upstream, this`ibuf, this`obuf, this`inputFinished, filter
      ensures Valid() && Remaining() == old(Remaining())
      ensures done ==> Remaining() == []
      ensures !done ==>
        |upstream| < old(|upstream|)
        || (upstream == old(upstream) && |ibuf| < old(|ibuf|))
        || (upstream == old(upstream) && ibuf == old(ibuf) && !old(inputFinished) && inputFinished)
        || (upstream == old(upstream) && ibuf == old(ibuf) && inputFinished && old(inputFinished)
            && old(filter.hasHeld) && !filter.hasHeld)
    {
      if ibuf != [] {
        ghost var f := filter.hasHeld;
        var out, consumed := filter.Feed(ibuf, FILTER_BUFFER, upstream);
        ibuf, obuf := ibuf[consumed..], out;
        return false;
      }
      assert ibuf + upstream == upstream;
      if inputFinished {
        obuf := filter.Drain();
        NothingOwed(filter.hasHeld, filter.held);
        return obuf == [];
      }
      ReadUpstream();
      if ibuf == [] {
        inputFinished := true;
      }
      return false;
    }

    /** Moves filtered output to the reader. */
    method TakeOutput(sz: nat) returns (chunk: Text)
      requires Valid() && obuf != [] && sz > 0
      modifies this`obuf
      ensures Valid() && 0 < |chunk| <= sz && chunk + Remaining() == old(Remaining())
    {
      var n := if sz < |obuf| then sz else |obuf|;
      assert obuf == obuf[..n] + obuf[n..];
      chunk, obuf := obuf[..n], obuf[n..];
    }

    /** Reads up to `size` characters: always the next ones of the conversion, and fewer only at its end. */
    method Read(size: nat) returns (buf: Text)
      requires Valid()
      modifies this`upstream, this`ibuf, this`obuf, this`inputFinished, filter
      ensures Valid() && |buf| <= size
      ensures buf + Remaining() == old(Remaining())
      ensures |buf| < size ==> Remaining() == []
    {
      hide Owed;
      buf := [];
      while |buf| < size
        invariant Valid() && |buf| <= size && buf + Remaining() == old(Remaining())
        decreases size - |buf|, |upstream|, |ibuf|, !inputFinished, filter.hasHeld
      {
        if obuf != [] {
          var chunk := TakeOutput(size - |buf|);
          buf := buf + chunk;
          continue;
        }
        var done := Advance();
        if done {
          return;
        }
      }
    }
  }

  function Sum(sizes: seq<nat>): nat {
    if sizes == [] then 0 else Sum(sizes[..|sizes| - 1]) + sizes[|sizes| - 1]
  }

  /** Reading a text through the filter in pieces of any sizes, however the upstream cuts it, gives what
      the whole-buffer conversion gives. */
  method ReadAll(text: Text, sizes: seq<nat>) returns (all: Text, more: bool)
    ensures all <= Crlf(false, text) && (!more ==> all == Crlf(false, text))
    ensures |all| <= Sum(sizes) && (more ==> |all| == Sum(sizes))
    ensures Sum(sizes) >= |Crlf(false, text)| ==> all == Crlf(false, text)
  {
    hide Crlf, Owed;
    var st := new FilteredStream(text);
    all, more := [], true;
    for i := 0 to |sizes|
      invariant st.Valid() && fresh(st) && fresh(st.filter)
      invariant all + st.Remaining() == Crlf(false, text) && (!more ==> st.Remaining() == [])
      invariant |all| <= Sum(sizes[..i]) && (more ==> |all| == Sum(sizes[..i]))
    {
      assert sizes[..i + 1][..i] == sizes[..i];
      ghost var rest := st.Remaining();
      var buf := st.Read(sizes[i]);
      assert all + rest == all + buf + st.Remaining();
      all := all + buf;
      if |buf| < sizes[i] {
        more := false;
      }
    }
    assert sizes[..|sizes|] == sizes;
  }

  /** What a file is read through on checkout: nothing that streams, no change, or the LF-to-CRLF filter. */
  datatype StreamFilter = NoFilter | NullFilter | LfToCrlfFilter

  /** Which files can be streamed. */
  method GetStreamFilter(action: Action, cfg: Config) returns (filter: StreamFilter)
    ensures action == Binary || action == InputAction ==> filter == NullFilter
    ensures action == CrlfAction ==> filter == LfToCrlfFilter
    ensures action == TextAction ==> filter == if AsksForCrlf(cfg) then LfToCrlfFilter else NoFilter
    ensures action == Auto ==> filter == NoFilter
    ensures action == Guess ==> filter == if cfg.autoCrlf == AutoFalse then NullFilter else NoFilter
  {
    filter := NoFilter;
    if action == Binary || action == InputAction || (action == Guess && cfg.autoCrlf == AutoFalse) {
      filter := NullFilter;
    } else if OutputEol(action, cfg) == CrlfEol && !(action == Auto || action == Guess) {
      filter := LfToCrlfFilter;
    }
  }

  /** Streaming and whole-buffer conversion agree for every file that is streamed. */
  method StreamAgrees(text: Text, action: Action, cfg: Config, sizes: seq<nat>)
    returns (streamed: Option<Text>, whole: Text)
    ensures streamed.Some? ==> streamed.value <= whole && (Sum(sizes) >= |whole| ==> streamed.value == whole)
    ensures streamed.Some? && Sum(sizes) < |whole| ==> |streamed.value| == Sum(sizes)
    ensures action == TextAction && AsksForCrlf(cfg) ==> streamed.Some? && whole == Crlf(false, text)
    ensures action == Guess && cfg.autoCrlf == AutoFalse ==> streamed.Some? && whole == text
    ensures action == CrlfAction ==> streamed.Some? && whole == Crlf(false, text)
    ensures action == Binary || action == InputAction ==> streamed.Some? && whole == text
  {
    hide Crlf, Converts;
    var r := CrlfToWorktree(text, action, cfg);
    whole := if r.Some? then r.value else text;
    var filter := GetStreamFilter(action, cfg);
    match filter {
      case NoFilter =>
        streamed := None;
      case NullFilter =>
        streamed := Some(if Sum(sizes) < |text| then text[..Sum(sizes)] else text);
      case LfToCrlfFilter =>
        var all, more := ReadAll(text, sizes);
        streamed := Some(all);
    }
  }
}
