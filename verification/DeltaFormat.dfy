/** The delta byte format: what patch_delta replays (patch-delta.c:15-84, delta.h:85-102). */
module DeltaFormat {
  import opened Common
  import opened Rabin

  type Bytes = seq<byte>

  const MAX_UINT32 := 0x1_0000_0000

  // ---------------------------------------------------------------- sizes: 7 bits a byte, low bits first

  function EncodeSize(n: nat): Bytes {
    if n < 0x80 then [n] else [n % 0x80 + 0x80] + EncodeSize(n / 0x80)
  }

  /** A size and the number of bytes it took; the buffer may end inside it. */
  function DecodeSize(s: Bytes): (nat, nat)
    requires s != []
    ensures 1 <= DecodeSize(s).1 <= |s|
  {
    if s[0] < 0x80 || |s| == 1 then (s[0] % 0x80, 1)
    else
      var (n, k) := DecodeSize(s[1..]);
      (s[0] % 0x80 + 0x80 * n, 1 + k)
  }

  lemma {:induction false} SizeRoundTrip(n: nat, rest: Bytes)
    ensures DecodeSize(EncodeSize(n) + rest) == (n, |EncodeSize(n)|)
  {
    if n >= 0x80 {
      SizeRoundTrip(n / 0x80, rest);
      assert (EncodeSize(n) + rest)[1..] == EncodeSize(n / 0x80) + rest;
    }
  }

  /** A 32-bit size takes at most five bytes. */
  lemma SizeLength(n: nat)
    requires n < MAX_UINT32
    ensures 1 <= |EncodeSize(n)| <= 5
  {
    var a := n / 0x80;
    var b := a / 0x80;
    var c := b / 0x80;
    var d := c / 0x80;
    assert d < 0x10 && |EncodeSize(d)| == 1;
    assert |EncodeSize(c)| <= 2 && |EncodeSize(b)| <= 3 && |EncodeSize(a)| <= 4;
  }

  lemma Pow7(i: nat)
    ensures Pow2(i + 7) == 0x80 * Pow2(i)
  {
    assert Pow2(i + 7) == 2 * Pow2(i + 6) && Pow2(i + 6) == 2 * Pow2(i + 5) && Pow2(i + 5) == 2 * Pow2(i + 4);
    assert Pow2(i + 4) == 2 * Pow2(i + 3) && Pow2(i + 3) == 2 * Pow2(i + 2) && Pow2(i + 2) == 2 * Pow2(i + 1);
  }

  /** `size` with the digits of `rest` placed above its first `i` bits. */
  function Above(size: nat, i: nat, rest: nat): nat {
    size + Pow2(i) * rest
  }

  lemma AboveStep(size: nat, i: nat, digit: nat, rest: nat)
    requires digit < 0x80 && size < Pow2(i)
    ensures Above(size, i, digit + 0x80 * rest) == Above(size + digit * Pow2(i), i + 7, rest)
    ensures Above(size, i, digit) == size + digit * Pow2(i) < Pow2(i + 7)
  {
    Pow7(i);
    var p := Pow2(i);
    assert p * (digit + 0x80 * rest) == digit * p + 0x80 * p * rest;
    assert digit * p <= 0x7f * p;
  }

  /** Part-way through reading a size: `size` holds the `i` bits read before `data`. */
  ghost predicate Reading(buf: Bytes, start: nat, data: nat, size: nat, i: nat) {
    && start <= data < |buf| && size < Pow2(i)
    && DecodeSize(buf[start..]) == (Above(size, i, DecodeSize(buf[data..]).0), data - start + DecodeSize(buf[data..]).1)
  }

  lemma ReadingStarts(buf: Bytes, start: nat)
    requires start < |buf|
    ensures Reading(buf, start, start, 0, 0)
  {
  }

  lemma ReadingSteps(buf: Bytes, start: nat, data: nat, size: nat, i: nat, next: nat)
    requires Reading(buf, start, data, size, i) && next == size + buf[data] % 0x80 * Pow2(i)
    ensures buf[data] >= 0x80 && data + 1 < |buf| ==> Reading(buf, start, data + 1, next, i + 7)
    ensures !(buf[data] >= 0x80 && data + 1 < |buf|) ==> DecodeSize(buf[start..]) == (next, data + 1 - start)
  {
    var cmd := buf[data];
    assert buf[data..][1..] == buf[data + 1..];
    if data + 1 < |buf| {
      AboveStep(size, i, cmd % 0x80, DecodeSize(buf[data + 1..]).0);
    } else {
      AboveStep(size, i, cmd % 0x80, 0);
    }
  }

  /** The header reader.  The bits OR-ed in at position `i` lie above `size`, so OR is addition. */
  method GetDeltaHdrSize(buf: Bytes, start: nat) returns (size: nat, data: nat)
    requires start < |buf|
    ensures data <= |buf| && DecodeSize(buf[start..]) == (size, data - start)
  {
    hide Reading, DecodeSize;
    size, data := 0, start;
    var i, p: nat := 0, Pow2(0);
    var more := true;
    ReadingStarts(buf, start);
    while more
      invariant start <= data <= |buf| && p == Pow2(i)
      invariant more ==> data < |buf| && Reading(buf, start, data, size, i)
      invariant !more ==> DecodeSize(buf[start..]) == (size, data - start)
      decreases |buf| - data, more
    {
      var cmd: nat := buf[data];
      var next: nat := size + cmd % 0x80 * p;
      ReadingSteps(buf, start, data, size, i, next);
      Pow7(i);
      size, data := next, data + 1;
      i, p := i + 7, Pow2(i + 7);
      more := cmd >= 0x80 && data < |buf|;
    }
  }

  // ---------------------------------------------------------------- operations

  datatype Op = Copy(off: nat, size: nat) | Insert(data: Bytes)

  /** An argument byte that is there only if its bit is set in the command. */
  function TakeByte(present: bool, s: Bytes): Option<(byte, Bytes)> {
    if !present then Some((0, s)) else if s == [] then None else Some((s[0], s[1..]))
  }

  /** `n` optional argument bytes, lowest first; `bits` holds their presence bits. */
  function TakeArg(bits: nat, n: nat, s: Bytes): (r: Option<(nat, Bytes)>)
    ensures r.Some? ==> |r.value.1| <= |s|
  {
    if n == 0 then Some((0, s))
    else
      match TakeByte(bits % 2 == 1, s)
      case None => None
      case Some((b, rest)) =>
        match TakeArg(bits / 2, n - 1, rest)
        case None => None
        case Some((hi, rest')) => Some((b + 0x100 * hi, rest'))
  }

  /** One operation off the front; `None` for the reserved command 0 or a truncated operation. */
  function ParseOp(s: Bytes): (r: Option<(Op, Bytes)>)
    requires s != []
    ensures r.Some? ==> |r.value.1| < |s|
  {
    var cmd := s[0];
    if cmd >= 0x80 then
      match TakeArg(cmd % 0x10, 4, s[1..])
      case None => None
      case Some((off, rest)) =>
        match TakeArg(cmd / 0x10 % 8, 3, rest)
        case None => None
        case Some((size, rest')) => Some((Copy(off, if size == 0 then 0x10000 else size), rest'))
    else if cmd == 0 || |s| < 1 + cmd then None
    else Some((Insert(s[1..1 + cmd]), s[1 + cmd..]))
  }

  function RunOp(src: Bytes, op: Op): Option<Bytes> {
    match op
    case Copy(off, size) => if off + size <= |src| then Some(src[off..off + size]) else None
    case Insert(data) => Some(data)
  }

  /** What a whole operation stream produces. */
  function Replay(src: Bytes, ops: Bytes): Option<Bytes>
    decreases |ops|
  {
    if ops == [] then Some([])
    else
      match ParseOp(ops)
      case None => None
      case Some((op, rest)) =>
        match RunOp(src, op)
        case None => None
        case Some(first) =>
          match Replay(src, rest)
          case None => None
          case Some(more) => Some(first + more)
  }

  lemma {:induction false} ArgExtends(bits: nat, n: nat, s: Bytes, t: Bytes)
    requires TakeArg(bits, n, s).Some?
    ensures TakeArg(bits, n, s + t) == Some((TakeArg(bits, n, s).value.0, TakeArg(bits, n, s).value.1 + t))
  {
    if n > 0 {
      var rest := TakeByte(bits % 2 == 1, s).value.1;
      if bits % 2 == 1 { assert (s + t)[1..] == s[1..] + t; }
      ArgExtends(bits / 2, n - 1, rest, t);
    }
  }

  lemma ParseExtends(s: Bytes, t: Bytes)
    requires s != [] && ParseOp(s).Some?
    ensures ParseOp(s + t) == Some((ParseOp(s).value.0, ParseOp(s).value.1 + t))
  {
    var cmd := s[0];
    assert (s + t)[1..] == s[1..] + t;
    if cmd >= 0x80 {
      ArgExtends(cmd % 0x10, 4, s[1..], t);
      ArgExtends(cmd / 0x10 % 8, 3, TakeArg(cmd % 0x10, 4, s[1..]).value.1, t);
    } else {
      assert (s + t)[1..1 + cmd] == s[1..1 + cmd];
      assert (s + t)[1 + cmd..] == s[1 + cmd..] + t;
    }
  }

  /** Streams replay one after the other. */
  lemma {:induction false} ReplayAppend(src: Bytes, a: Bytes, b: Bytes)
    requires Replay(src, a).Some? && Replay(src, b).Some?
    ensures Replay(src, a + b) == Some(Replay(src, a).value + Replay(src, b).value)
    decreases |a|
  {
    hide ParseOp, RunOp;
    if a == [] {
      assert a + b == b;
      assert [] + Replay(src, b).value == Replay(src, b).value;
    } else {
      ParseExtends(a, b);
      var (op, rest) := ParseOp(a).value;
      ReplayAppend(src, rest, b);
      Concat3(RunOp(src, op).value, Replay(src, rest).value, Replay(src, b).value);
    }
  }

  lemma Concat3(a: Bytes, b: Bytes, c: Bytes)
    ensures a + (b + c) == a + b + c
  {
  }

  // ---------------------------------------------------------------- what the encoder emits

  /** The `n` low bytes of `x` that are not zero, lowest first, and the bits saying which. */
  function EncodeArg(x: nat, n: nat): Bytes {
    if n == 0 then []
    else (if x % 0x100 == 0 then [] else [x % 0x100]) + EncodeArg(x / 0x100, n - 1)
  }

  function ArgBits(x: nat, n: nat): nat {
    if n == 0 then 0
    else (if x % 0x100 == 0 then 0 else 1) + 2 * ArgBits(x / 0x100, n - 1)
  }

  function Pow256(n: nat): nat {
    if n == 0 then 1 else 0x100 * Pow256(n - 1)
  }

  lemma TakeNothing(bits: nat, n: nat, s: Bytes, y: nat, t: Bytes)
    requires n > 0 && TakeArg(bits, n - 1, s) == Some((y, t))
    ensures TakeArg(2 * bits, n, s) == Some((0x100 * y, t))
  {
  }

  lemma TakeOne(bits: nat, n: nat, c: byte, s: Bytes, y: nat, t: Bytes)
    requires n > 0 && TakeArg(bits, n - 1, s) == Some((y, t))
    ensures TakeArg(1 + 2 * bits, n, [c] + s) == Some((c + 0x100 * y, t))
  {
    assert ([c] + s)[1..] == s;
    assert (1 + 2 * bits) / 2 == bits && (1 + 2 * bits) % 2 == 1;
  }

  lemma {:induction false} ArgRoundTrip(x: nat, n: nat, t: Bytes)
    requires x < Pow256(n)
    ensures TakeArg(ArgBits(x, n), n, EncodeArg(x, n) + t) == Some((x, t))
  {
    hide TakeArg;
    if n == 0 {
      assert EncodeArg(x, n) + t == t;
      TakeEnds(ArgBits(x, n), t);
    } else {
      ArgRoundTrip(x / 0x100, n - 1, t);
      var bits, more := ArgBits(x / 0x100, n - 1), EncodeArg(x / 0x100, n - 1) + t;
      if x % 0x100 == 0 {
        assert EncodeArg(x, n) + t == more;
        TakeNothing(bits, n, more, x / 0x100, t);
      } else {
        assert EncodeArg(x, n) + t == [x % 0x100] + more;
        TakeOne(bits, n, x % 0x100, more, x / 0x100, t);
      }
    }
  }

  lemma TakeEnds(bits: nat, s: Bytes)
    ensures TakeArg(bits, 0, s) == Some((0, s))
  {
  }

  function EncodeCopy(off: nat, size: nat): Bytes
    requires off < MAX_UINT32
  {
    ArgBitsFit(off, 4);
    ArgBitsFit(size, 2);
    [0x80 + ArgBits(off, 4) + 0x10 * ArgBits(size, 2)] + EncodeArg(off, 4) + EncodeArg(size, 2)
  }

  lemma ArgBitsFit(x: nat, n: nat)
    requires n <= 4
    ensures ArgBits(x, n) < 0x10 && (n == 2 ==> ArgBits(x, n) < 4)
  {
    assert forall y :: ArgBits(y, 0) == 0;
    assert forall y :: ArgBits(y, 1) < 2;
    assert forall y :: ArgBits(y, 2) < 4;
    assert forall y :: ArgBits(y, 3) < 8;
  }

  /** A size that fits 16 bits is written the same with a third, always absent, byte; so is 0x10000. */
  lemma SizeArg(size: nat)
    requires 0 < size <= 0x10000
    ensures EncodeArg(size, 2) == EncodeArg(size % 0x10000, 3) && ArgBits(size, 2) == ArgBits(size % 0x10000, 3)
  {
    var x := size % 0x10000;
    var hi := x / 0x100 / 0x100;
    assert hi == 0 && EncodeArg(hi, 1) == [] && ArgBits(hi, 1) == 0;
    assert size / 0x100 / 0x100 <= 1;
    assert EncodeArg(x / 0x100, 2) == EncodeArg(x / 0x100, 1) && ArgBits(x / 0x100, 2) == ArgBits(x / 0x100, 1);
    assert x % 0x100 == size % 0x100 && x / 0x100 % 0x100 == size / 0x100 % 0x100;
    assert EncodeArg(size / 0x100, 1) == EncodeArg(x / 0x100, 1) && ArgBits(size / 0x100, 1) == ArgBits(x / 0x100, 1);
  }

  lemma CommandBits(a: nat, b: nat)
    requires a < 0x10 && b < 4
    ensures (0x80 + a + 0x10 * b) % 0x10 == a && (0x80 + a + 0x10 * b) / 0x10 % 8 == b
  {
  }

  lemma CopyRoundTrip(off: nat, size: nat, t: Bytes)
    requires off < MAX_UINT32 && 0 < size <= 0x10000
    ensures ParseOp(EncodeCopy(off, size) + t) == Some((Copy(off, size), t))
  {
    hide EncodeArg, ArgBits, TakeArg, Pow256;
    var x := size % 0x10000;
    SizeArg(size);
    ArgBitsFit(off, 4);
    ArgBitsFit(size, 2);
    Powers256();
    var s := EncodeCopy(off, size) + t;
    assert s[1..] == EncodeArg(off, 4) + (EncodeArg(size, 2) + t);
    CommandBits(ArgBits(off, 4), ArgBits(size, 2));
    ArgRoundTrip(off, 4, EncodeArg(size, 2) + t);
    ArgRoundTrip(x, 3, t);
  }

  lemma Powers256()
    ensures Pow256(4) == MAX_UINT32 && Pow256(3) == 0x100_0000
  {
  }

  lemma ReplayOne(src: Bytes, ops: Bytes, op: Op)
    requires ops != [] && ParseOp(ops) == Some((op, [])) && RunOp(src, op).Some?
    ensures Replay(src, ops) == RunOp(src, op)
  {
    hide ParseOp, RunOp;
    assert RunOp(src, op).value + [] == RunOp(src, op).value;
  }

  /** One more copy operation appends the copied source bytes. */
  lemma ReplayCopy(src: Bytes, ops: Bytes, off: nat, size: nat)
    requires Replay(src, ops).Some? && off + size <= |src| < MAX_UINT32 && 0 < size <= 0x10000
    ensures Replay(src, ops + EncodeCopy(off, size)) == Some(Replay(src, ops).value + src[off..off + size])
  {
    hide Replay, ParseOp;
    var op := EncodeCopy(off, size);
    CopyRoundTrip(off, size, []);
    assert op + [] == op;
    ReplayOne(src, op, Copy(off, size));
    ReplayAppend(src, ops, op);
  }

  /** One more insert operation appends its literal bytes. */
  lemma ReplayInsert(src: Bytes, ops: Bytes, data: Bytes)
    requires Replay(src, ops).Some? && 0 < |data| < 0x80
    ensures Replay(src, ops + ([|data|] + data)) == Some(Replay(src, ops).value + data)
  {
    hide Replay, ParseOp;
    var op := [|data|] + data;
    ParseInsert(data);
    ReplayOne(src, op, Insert(data));
    ReplayAppend(src, ops, op);
  }

  lemma ParseInsert(data: Bytes)
    requires 0 < |data| < 0x80
    ensures ParseOp([|data|] + data) == Some((Insert(data), []))
  {
    hide TakeArg;
    var op := [|data|] + data;
    assert op[1..1 + |data|] == data && op[1 + |data|..] == [];
  }

  // ---------------------------------------------------------------- patch_delta

  /** Both sizes and the operation stream behind them. */
  ghost function Header(delta: Bytes): Option<(nat, nat, Bytes)>
    requires delta != []
  {
    var (srcSize, k) := DecodeSize(delta);
    if k == |delta| then None
    else
      var (size, l) := DecodeSize(delta[k..]);
      Some((srcSize, size, delta[k + l..]))
  }

  /** The loop breaks off at the command in front: a copy from outside the source or of more than is still
      expected, or a longer insert than that. */
  predicate Breaks(src: Bytes, ops: Bytes, size: nat)
    requires ops != []
  {
    if ops[0] < 0x80 then ops[0] > size
    else
      match ParseOp(ops)
      case None => false
      case Some((op, _)) => op.Copy? && (op.off + op.size > |src| || op.size > size)
  }

  /** Where the loop has got to when it breaks off: behind a copy's arguments, or behind an insert's count. */
  function Behind(src: Bytes, ops: Bytes, size: nat): (rest: Bytes)
    requires ops != [] && Breaks(src, ops, size)
    ensures |rest| < |ops|
  {
    if ops[0] < 0x80 then ops[1..] else ParseOp(ops).value.1
  }

  /** What the loop makes of a stream while `size` bytes are expected.  It must end at the end of the stream with
      nothing more expected, but it may break off there. */
  ghost function Loop(src: Bytes, ops: Bytes, size: nat): Option<Bytes>
    decreases |ops|
  {
    if ops == [] then if size == 0 then Some([]) else None
    else if Breaks(src, ops, size) then if Behind(src, ops, size) == [] && size == 0 then Some([]) else None
    else
      match ParseOp(ops)
      case None => None
      case Some((op, rest)) =>
        var first := RunOp(src, op).value;
        match Loop(src, rest, size - |first|)
        case None => None
        case Some(more) => Some(first + more)
  }

  /** The target a delta rebuilds; `None` where patch_delta reports an error (or would read past the
      end of the delta). */
  ghost function Patch(src: Bytes, delta: Bytes): Option<Bytes> {
    if |delta| < 4 then None
    else
      match Header(delta)
      case None => None
      case Some((srcSize, size, ops)) => if srcSize == |src| then Loop(src, ops, size) else None
  }

  // ---------------------------------------------------------------- exactly which streams are accepted

  lemma {:induction false} ArgLocal(bits: nat, n: nat, s: Bytes) returns (head: Bytes)
    requires TakeArg(bits, n, s).Some?
    ensures s == head + TakeArg(bits, n, s).value.1
    ensures TakeArg(bits, n, head) == Some((TakeArg(bits, n, s).value.0, []))
  {
    head := [];
    if n > 0 {
      head := ArgLocal(bits / 2, n - 1, TakeByte(bits % 2 == 1, s).value.1);
      if bits % 2 == 1 {
        var more := head;
        head := [s[0]] + more;
        assert head[1..] == more;
      }
    }
  }

  /** A command's bytes by themselves parse as the command. */
  lemma ParseLocal(s: Bytes) returns (head: Bytes)
    requires s != [] && ParseOp(s).Some?
    ensures head != [] && s == head + ParseOp(s).value.1 && ParseOp(head) == Some((ParseOp(s).value.0, []))
  {
    hide TakeArg;
    var cmd := s[0];
    if cmd < 0x80 {
      head := s[..1 + cmd];
      assert head[1..1 + cmd] == s[1..1 + cmd] && head[1 + cmd..] == [];
    } else {
      var (_, rest) := TakeArg(cmd % 0x10, 4, s[1..]).value;
      var offs := ArgLocal(cmd % 0x10, 4, s[1..]);
      var sizes := ArgLocal(cmd / 0x10 % 8, 3, rest);
      ArgExtends(cmd % 0x10, 4, offs, sizes);
      assert [] + sizes == sizes;
      head := [cmd] + (offs + sizes);
      assert head[1..] == offs + sizes;
    }
  }

  /** A command by itself that goes unnoticed behind a complete target: any one copy, or the count of an insert. */
  predicate Unnoticed(tail: Bytes) {
    || tail == []
    || (|tail| == 1 && 0 < tail[0] < 0x80)
    || (tail[0] >= 0x80 && ParseOp(tail).Some? && ParseOp(tail).value.1 == [])
  }

  /** `ops` replays to `out`, apart from an unnoticed command at the end. */
  ghost predicate ReplaysTo(src: Bytes, ops: Bytes, out: Bytes) {
    exists good, tail :: ops == good + tail && Replay(src, good) == Some(out) && Unnoticed(tail)
  }

  lemma CopyCopies(s: Bytes)
    requires s != [] && s[0] >= 0x80 && ParseOp(s).Some?
    ensures ParseOp(s).value.0.Copy? && ParseOp(s).value.0.size > 0
  {
  }

  lemma {:induction false} GoodIsAccepted(src: Bytes, good: Bytes, tail: Bytes)
    requires Replay(src, good).Some? && Unnoticed(tail)
    ensures Loop(src, good + tail, |Replay(src, good).value|) == Replay(src, good)
    decreases |good|
  {
    if good == [] {
      assert good + tail == tail;
      if tail != [] && tail[0] >= 0x80 { CopyCopies(tail); }
    } else {
      ParseExtends(good, tail);
      GoodIsAccepted(src, ParseOp(good).value.1, tail);
    }
  }

  lemma RunsThen(src: Bytes, ops: Bytes, size: nat)
    requires ops != [] && !Breaks(src, ops, size) && ParseOp(ops).Some?
    ensures
      var (op, rest) := ParseOp(ops).value;
      && RunOp(src, op).Some? && |RunOp(src, op).value| <= size
      && Loop(src, ops, size) ==
        match Loop(src, rest, size - |RunOp(src, op).value|)
        case None => None
        case Some(more) => Some(RunOp(src, op).value + more)
  {
  }

  lemma ReplayFirst(src: Bytes, ops: Bytes, op: Op, rest: Bytes)
    requires ops != [] && ParseOp(ops) == Some((op, rest)) && RunOp(src, op).Some? && Replay(src, rest).Some?
    ensures Replay(src, ops) == Some(RunOp(src, op).value + Replay(src, rest).value)
  {
  }

  lemma {:induction false} AcceptedIsGood(src: Bytes, ops: Bytes, size: nat)
    requires Loop(src, ops, size).Some?
    ensures |Loop(src, ops, size).value| == size && ReplaysTo(src, ops, Loop(src, ops, size).value)
    decreases |ops|
  {
    hide ParseOp, Replay, RunOp;
    if ops == [] || Breaks(src, ops, size) {
      assert ops == [] + ops;
      if ops != [] { BrokenIsUnnoticed(src, ops, size); }
      EmptyStream(src);
    } else {
      var (op, rest) := ParseOp(ops).value;
      RunsThen(src, ops, size);
      var first := RunOp(src, op).value;
      AcceptedIsGood(src, rest, size - |first|);
      var more := Loop(src, rest, size - |first|).value;
      var good, tail :| rest == good + tail && Replay(src, good) == Some(more) && Unnoticed(tail);
      var head := ParseLocal(ops);
      ParseExtends(head, good);
      assert [] + good == good;
      ReplayFirst(src, head + good, op, good);
      assert ops == head + good + tail;
    }
  }

  lemma BrokenIsUnnoticed(src: Bytes, ops: Bytes, size: nat)
    requires ops != [] && Breaks(src, ops, size) && Behind(src, ops, size) == []
    ensures Unnoticed(ops)
  {
  }

  /** patch_delta accepts exactly the deltas with both sizes right whose commands replay to the target, one
      unnoticed command at the end aside. */
  lemma PatchAccepts(src: Bytes, delta: Bytes, out: Bytes)
    ensures Patch(src, delta) == Some(out) <==>
      && |delta| >= 4 && Header(delta).Some?
      && Header(delta).value.0 == |src| && Header(delta).value.1 == |out|
      && ReplaysTo(src, Header(delta).value.2, out)
  {
    hide Replay, Loop, ParseOp, DecodeSize, Unnoticed;
    if |delta| >= 4 && Header(delta).Some? {
      var (srcSize, size, ops) := Header(delta).value;
      if Loop(src, ops, size).Some? { AcceptedIsGood(src, ops, size); }
      if size == |out| && ReplaysTo(src, ops, out) {
        var good, tail :| ops == good + tail && Replay(src, good) == Some(out) && Unnoticed(tail);
        GoodIsAccepted(src, good, tail);
      }
    }
  }

  /** A copy from outside the source and a cut-off insert behind a complete target: the stream does not replay,
      and the delta is accepted all the same. */
  lemma BadEndIsAccepted()
    ensures Replay([7], [1, 65, 0x80]) == None && Patch([7], [1, 1, 1, 65, 0x80]) == Some([65])
    ensures Replay([7], [1, 65, 5]) == None && Patch([7], [1, 1, 1, 65, 5]) == Some([65])
  {
    hide Replay, Loop, Header;
    NoArgsTaken();
    InsertThen([7], 65, [0x80]);
    InsertThen([7], 65, [5]);
    assert [1, 65] + [0x80] == [1, 65, 0x80] && [1, 65] + [5] == [1, 65, 5];
    assert EncodeSize(1) + EncodeSize(1) + ([1, 65] + [0x80]) == [1, 1, 1, 65, 0x80];
    assert EncodeSize(1) + EncodeSize(1) + ([1, 65] + [5]) == [1, 1, 1, 65, 5];
    HeaderRoundTrip(1, 1, [1, 65] + [0x80]);
    HeaderRoundTrip(1, 1, [1, 65] + [5]);
  }

  lemma NoArgsTaken()
    ensures ParseOp([0x80]) == Some((Copy(0, 0x10000), []))
  {
    assert TakeArg(0, 4, []) == Some((0, [])) && TakeArg(0, 3, []) == Some((0, []));
    assert [0x80][1..] == [];
  }

  lemma InsertThen(src: Bytes, b: byte, tail: Bytes)
    requires tail != [] && Unnoticed(tail) && (tail[0] >= 0x80 ==> ParseOp(tail) == Some((Copy(0, 0x10000), [])))
    requires |src| < 0x10000
    ensures Replay(src, [1, b] + tail) == None && Loop(src, [1, b] + tail, 1) == Some([b])
  {
    var ops := [1, b] + tail;
    assert ops[1..2] == [b] && ops[2..] == tail;
    assert Replay(src, tail) == None;
    var good := [1, b];
    assert good[1..2] == [b] && good[2..] == [];
    ReplayOne(src, good, Insert([b]));
    GoodIsAccepted(src, good, tail);
  }

  lemma SizeNonEmpty(n: nat)
    ensures |EncodeSize(n)| >= 1
  {
  }

  lemma DropPrefix(a: Bytes, b: Bytes, c: Bytes)
    ensures (a + b + c)[|a|..] == b + c && (a + b + c)[|a| + |b|..] == c && a + b + c == a + (b + c)
  {
  }

  lemma HeaderRoundTrip(n: nat, m: nat, ops: Bytes)
    requires ops != []
    ensures Header(EncodeSize(n) + EncodeSize(m) + ops) == Some((n, m, ops))
  {
    hide EncodeSize, DecodeSize;
    var a, b := EncodeSize(n), EncodeSize(m);
    SizeNonEmpty(n);
    SizeNonEmpty(m);
    DropPrefix(a, b, ops);
    SizeRoundTrip(n, b + ops);
    SizeRoundTrip(m, ops);
  }

  /** No delta of a non-empty target is below the four bytes patch_delta insists on: a one-byte stream
      copies 64 KB, which takes a longer header. */
  lemma SmallestDelta(src: Bytes, ops: Bytes, trg: Bytes)
    requires Replay(src, ops) == Some(trg) && trg != []
    ensures ops != [] && |EncodeSize(|src|)| + |EncodeSize(|trg|)| + |ops| >= 4
  {
    hide Replay, EncodeSize;
    SizeNonEmpty(|src|);
    SizeNonEmpty(|trg|);
    EmptyStream(src);
    if |ops| == 1 {
      OneByteStream(src, ops);
      LongSize(|src|);
    }
  }

  lemma EmptyStream(src: Bytes)
    ensures Replay(src, []) == Some([])
  {
  }

  lemma LongSize(n: nat)
    requires n >= 0x80
    ensures |EncodeSize(n)| >= 2
  {
    SizeNonEmpty(n / 0x80);
  }

  lemma OneByteStream(src: Bytes, ops: Bytes)
    requires |ops| == 1 && Replay(src, ops).Some?
    ensures |src| >= 0x10000
  {
    var cmd := ops[0];
    assert ops[1..] == [];
    if cmd >= 0x80 {
      NoArgs(cmd % 0x10, 4);
      NoArgs(cmd / 0x10 % 8, 3);
    }
  }

  lemma {:induction false} NoArgs(bits: nat, n: nat)
    requires TakeArg(bits, n, []).Some?
    ensures TakeArg(bits, n, []).value == (0, [])
  {
    if n > 0 { NoArgs(bits / 2, n - 1); }
  }

  /** A header for both sizes and a stream that replays to `trg` make a delta that rebuilds `trg`. */
  lemma PatchWhole(src: Bytes, ops: Bytes, trg: Bytes)
    requires Replay(src, ops) == Some(trg) && trg != []
    ensures Patch(src, EncodeSize(|src|) + EncodeSize(|trg|) + ops) == Some(trg)
  {
    hide Replay, EncodeSize, Header, Loop;
    SmallestDelta(src, ops, trg);
    HeaderRoundTrip(|src|, |trg|, ops);
    GoodIsAccepted(src, ops, []);
    assert ops + [] == ops;
  }

  /** What is left of the loop after `out` has been produced and `size` bytes are still expected. */
  ghost predicate Looping(src: Bytes, ops: Bytes, want: nat, rest: Bytes, out: Bytes, size: nat) {
    match Loop(src, rest, size)
    case None => Loop(src, ops, want) == None
    case Some(more) => Loop(src, ops, want) == Some(out + more)
  }

  lemma LoopingStep(src: Bytes, ops: Bytes, want: nat, rest: Bytes, out: Bytes, size: nat)
    requires Looping(src, ops, want, rest, out, size) && rest != []
    ensures Breaks(src, rest, size) ==>
      Loop(src, ops, want) == if Behind(src, rest, size) == [] && size == 0 then Some(out) else None
    ensures !Breaks(src, rest, size) && ParseOp(rest).None? ==> Loop(src, ops, want) == None
    ensures !Breaks(src, rest, size) && ParseOp(rest).Some? ==>
      var first := RunOp(src, ParseOp(rest).value.0);
      && first.Some? && |first.value| <= size
      && Looping(src, ops, want, ParseOp(rest).value.1, out + first.value, size - |first.value|)
  {
    if Breaks(src, rest, size) {
      assert out + [] == out;
    } else if ParseOp(rest).Some? {
      var (op, next) := ParseOp(rest).value;
      var first := RunOp(src, op).value;
      if Loop(src, next, size - |first|).Some? {
        Concat3(out, first, Loop(src, next, size - |first|).value);
      }
    }
  }

  /** The decoder: header checks, then one command at a time against the bytes still expected. */
  method PatchDelta(src: Bytes, delta: Bytes) returns (dst: Option<Bytes>)
    ensures dst == Patch(src, delta)
  {
    hide Loop, Looping, TakeArg, DecodeSize;
    if |delta| < 4 {
      return None;
    }
    assert delta[0..] == delta;
    var size: nat, data: nat := GetDeltaHdrSize(delta, 0);
    if size != |src| || data == |delta| {
      return None;
    }
    size, data := GetDeltaHdrSize(delta, data);
    ghost var want, ops := size, delta[data..];
    var out: Bytes := [];
    LoopingStarts(src, ops, want);
    while data < |delta|
      invariant data <= |delta| && Looping(src, ops, want, delta[data..], out, size)
      decreases |delta| - data
    {
      var rest := delta[data..];
      LoopingStep(src, ops, want, rest, out, size);
      var cmd := rest[0];
      var parsed := ParseOp(rest);
      if cmd >= 0x80 {
        if parsed.None? {
          return None;
        }
        var (op, next) := parsed.value;
        ParseConsumes(delta, data);
        data := |delta| - |next|;
        if op.off + op.size > |src| || op.size > size {
          break;
        }
        out := out + src[op.off..op.off + op.size];
        size := size - op.size;
      } else if cmd != 0 {
        data := data + 1;
        if cmd > size {
          break;
        }
        if data + cmd > |delta| {
          return None;
        }
        assert rest[1..1 + cmd] == delta[data..data + cmd] && rest[1 + cmd..] == delta[data + cmd..];
        out := out + delta[data..data + cmd];
        data := data + cmd;
        size := size - cmd;
      } else {
        return None;
      }
    }
    assert data == |delta| ==> delta[data..] == [];
    LoopingEnds(src, ops, want, out, size);
    if data != |delta| || size != 0 {
      return None;
    }
    return Some(out);
  }

  lemma LoopingStarts(src: Bytes, ops: Bytes, want: nat)
    ensures Looping(src, ops, want, ops, [], want)
  {
    if Loop(src, ops, want).Some? {
      assert [] + Loop(src, ops, want).value == Loop(src, ops, want).value;
    }
  }

  lemma LoopingEnds(src: Bytes, ops: Bytes, want: nat, out: Bytes, size: nat)
    ensures Looping(src, ops, want, [], out, size) ==> Loop(src, ops, want) == if size == 0 then Some(out) else None
  {
    assert out + [] == out;
  }

  lemma {:induction false} ArgConsumes(bits: nat, n: nat, s: Bytes)
    requires TakeArg(bits, n, s).Some?
    ensures TakeArg(bits, n, s).value.1 == s[|s| - |TakeArg(bits, n, s).value.1|..]
  {
    if n > 0 {
      ArgConsumes(bits / 2, n - 1, TakeByte(bits % 2 == 1, s).value.1);
    }
  }

  lemma ParseConsumes(s: Bytes, data: nat)
    requires data < |s| && ParseOp(s[data..]).Some?
    ensures |ParseOp(s[data..]).value.1| < |s| - data
    ensures ParseOp(s[data..]).value.1 == s[|s| - |ParseOp(s[data..]).value.1|..]
  {
    var t := s[data..];
    var cmd := t[0];
    if cmd >= 0x80 {
      ArgConsumes(cmd % 0x10, 4, t[1..]);
      ArgConsumes(cmd / 0x10 % 8, 3, TakeArg(cmd % 0x10, 4, t[1..]).value.1);
    }
  }
}
