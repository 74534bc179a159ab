/** Base-85 coding of binary data (base85.c:16-102). */
module Base85 {
  import opened Common

  type Byte = n: nat | n < 256

  const MAX := 0xffff_ffff

  /** The alphabet's character for a digit. */
  function En(d: nat): char
    requires d < 85
  {
    if d < 10 then ('0' as int + d) as char
    else if d < 36 then ('A' as int + d - 10) as char
    else if d < 62 then ('a' as int + d - 36) as char
    else "!#$%&()*+-;<=>?@^_`{|}~"[d - 62]
  }

  /** Fills the decoding table: one more than the digit, or zero for other characters. */
  method PrepBase85() returns (de85: array<nat>)
    ensures fresh(de85) && IsTable(de85[..])
  {
    de85 := new nat[256](_ => 0);
    for i := 0 to 85
      invariant forall d :: 0 <= d < i ==> En(d) as int < 256 && de85[En(d) as int] == d + 1
      invariant forall c :: 0 <= c < 256 && de85[c] != 0 ==> de85[c] <= i && En(de85[c] - 1) as int == c
    {
      EnDistinct(i);
      de85[En(i) as int] := i + 1;
    }
  }

  /** The table inverts the alphabet. */
  ghost predicate IsTable(de85: seq<nat>) {
    && |de85| == 256
    && (forall d: nat :: d < 85 ==> En(d) as int < 256 && de85[En(d) as int] == d + 1)
    && (forall c :: 0 <= c < 256 && de85[c] != 0 ==> de85[c] <= 85 && En(de85[c] - 1) as int == c)
  }

  lemma EnDistinct(i: nat)
    requires i < 85
    ensures En(i) as int < 128 && forall d: nat :: d < 85 && En(d) == En(i) ==> d == i
  {
  }

  /** The alphabet written out. */
  lemma Alphabet(d: nat)
    requires d < 85
    ensures d < 10 ==> En(d) == "0123456789"[d]
    ensures 10 <= d < 36 ==> En(d) == "ABCDEFGHIJKLMNOPQRSTUVWXYZ"[d - 10]
    ensures 36 <= d < 62 ==> En(d) == "abcdefghijklmnopqrstuvwxyz"[d - 36]
    ensures 62 <= d ==> En(d) == "!#$%&()*+-;<=>?@^_`{|}~"[d - 62]
  {
  }

  // ---------------------------------------------------------------- groups

  /** The number a group of digits stands for. */
  function Value(ds: seq<nat>): nat {
    if ds == [] then 0 else Value(ds[..|ds| - 1]) * 85 + ds[|ds| - 1]
  }

  function Digits(x: nat, n: nat): (ds: seq<nat>)
    ensures |ds| == n && forall k :: 0 <= k < n ==> ds[k] < 85
  {
    if n == 0 then [] else Digits(x / 85, n - 1) + [x % 85]
  }

  function Pow85(n: nat): nat {
    if n == 0 then 1 else 85 * Pow85(n - 1)
  }

  lemma {:induction false} DigitsValue(x: nat, n: nat)
    requires x < Pow85(n)
    ensures Value(Digits(x, n)) == x
  {
    if n > 0 {
      DigitsValue(x / 85, n - 1);
      assert Digits(x, n)[..n - 1] == Digits(x / 85, n - 1);
    }
  }

  /** A 32-bit word from its bytes, highest first. */
  function Word(a: int, b: int, c: int, d: int): int {
    ((a * 256 + b) * 256 + c) * 256 + d
  }

  /** Rotating a word left by a byte. */
  function Rotate(x: int): int {
    x * 256 % 0x1_0000_0000 + x / 0x100_0000
  }

  lemma TopByte(a: nat, low: nat)
    requires low < 0x100_0000
    ensures (a * 0x100_0000 + low) / 0x100_0000 == a
  {
  }

  lemma Low32(a: nat, low: nat)
    requires low < 0x1_0000_0000
    ensures (a * 0x1_0000_0000 + low) % 0x1_0000_0000 == low
  {
  }

  lemma RotateWord(a: Byte, b: Byte, c: Byte, d: Byte)
    ensures Rotate(Word(a, b, c, d)) == Word(b, c, d, a) && Word(b, c, d, a) % 256 == a
    ensures 0 <= Word(a, b, c, d) <= MAX
  {
    var low: nat := (b * 256 + c as int) * 256 + d as int;
    assert Word(a, b, c, d) == a * 0x100_0000 + low;
    TopByte(a, low);
    Low32(a, low * 256);
    LowByte(low, a);
  }

  lemma LowByte(x: nat, d: Byte)
    ensures (x * 256 + d) / 256 == x && (x * 256 + d) % 256 == d
  {
  }

  function At(data: seq<Byte>, k: nat): Byte {
    if k < |data| then data[k] else 0
  }

  /** The first four bytes as a word, zeros for missing ones. */
  function Pack(data: seq<Byte>): int {
    Word(At(data, 0), At(data, 1), At(data, 2), At(data, 3))
  }

  /** The bytes of a word, highest first. */
  function Unpack(x: nat): (b: seq<Byte>)
    requires x <= MAX
    ensures |b| == 4
  {
    [x / 256 / 256 / 256, x / 256 / 256 % 256, x / 256 % 256, x % 256]
  }

  lemma UnpackWord(a: Byte, b: Byte, c: Byte, d: Byte)
    ensures 0 <= Word(a, b, c, d) <= MAX && Unpack(Word(a, b, c, d)) == [a, b, c, d]
  {
    var ab := a * 256 + b as int;
    var abc := ab * 256 + c as int;
    RotateWord(a, b, c, d);
    LowByte(abc, d);
    LowByte(ab, c);
    LowByte(a, b);
  }

  lemma UnpackPack(data: seq<Byte>)
    ensures 0 <= Pack(data) <= MAX && Unpack(Pack(data)) == [At(data, 0), At(data, 1), At(data, 2), At(data, 3)]
  {
    hide At, Word, Unpack;
    UnpackWord(At(data, 0), At(data, 1), At(data, 2), At(data, 3));
  }

  lemma PackUnpack(x: nat)
    requires x <= MAX
    ensures var b := Unpack(x); x == Word(b[0], b[1], b[2], b[3])
  {
  }

  // ---------------------------------------------------------------- the coding

  function Letters(ds: seq<nat>): string
    requires forall k :: 0 <= k < |ds| ==> ds[k] < 85
  {
    seq(|ds|, k requires 0 <= k < |ds| => En(ds[k]))
  }

  function Group(data: seq<Byte>): nat {
    if |data| < 4 then |data| else 4
  }

  /** Five letters for every four bytes, and for what is left. */
  function Encoded(data: seq<Byte>): string {
    if data == [] then ""
    else
      UnpackPack(data);
      Letters(Digits(Pack(data), 5)) + Encoded(data[Group(data)..])
  }

  /** The digit of a character, if it is in the alphabet. */
  function DigitOf(c: char, from: nat): (d: Option<nat>)
    requires from <= 85
    ensures d.Some? ==> from <= d.value < 85 && En(d.value) == c
    ensures d.None? ==> forall k: nat :: from <= k < 85 ==> En(k) != c
    decreases 85 - from
  {
    if from == 85 then None else if En(from) == c then Some(from) else DigitOf(c, from + 1)
  }

  /** The digits of a group of letters, if all are in the alphabet. */
  function DigitsOf(s: string): (ds: Option<seq<nat>>)
    ensures ds.Some? ==> |ds.value| == |s| && forall k :: 0 <= k < |s| ==> ds.value[k] < 85
  {
    if s == "" then Some([])
    else
      var rest, d := DigitsOf(s[..|s| - 1]), DigitOf(s[|s| - 1], 0);
      if rest.None? || d.None? then None else Some(rest.value + [d.value])
  }

  /** How many letters `len` bytes take. */
  function LettersFor(len: nat): nat {
    (len + 3) / 4 * 5
  }

  /** `len` bytes from their letters: a group is good when all its letters are in the alphabet and its value
      fits 32 bits. */
  function Decoded(buffer: string, len: nat): (r: Option<seq<Byte>>)
    requires |buffer| >= LettersFor(len)
    ensures r.Some? ==> |r.value| == len
    decreases len
  {
    if len == 0 then Some([])
    else
      var ds := DigitsOf(buffer[..5]);
      if ds.None? || Value(ds.value) > MAX then None
      else
        var cnt := if len < 4 then len else 4;
        var rest := Decoded(buffer[5..], len - cnt);
        if rest.None? then None else Some(Unpack(Value(ds.value))[..cnt] + rest.value)
  }

  lemma {:induction false} DigitsOfLetters(ds: seq<nat>)
    requires forall k :: 0 <= k < |ds| ==> ds[k] < 85
    ensures DigitsOf(Letters(ds)) == Some(ds)
  {
    if ds != [] {
      var s := Letters(ds);
      var last := ds[|ds| - 1];
      assert s[..|s| - 1] == Letters(ds[..|ds| - 1]);
      DigitsOfLetters(ds[..|ds| - 1]);
      EnDistinct(last);
      assert s[|s| - 1] == En(last);
      assert DigitOf(En(last), 0) == Some(last);
      assert ds == ds[..|ds| - 1] + [last];
    }
  }

  lemma LettersLen(ds: seq<nat>)
    requires forall k :: 0 <= k < |ds| ==> ds[k] < 85
    ensures |Letters(ds)| == |ds|
  {
  }

  lemma FitsFive(x: nat)
    requires x <= MAX
    ensures Value(Digits(x, 5)) == x
  {
    assert Pow85(5) == 4437053125;
    DigitsValue(x, 5);
  }

  // ---------------------------------------------------------------- encoding

  function Weight(k: nat): nat
    requires k < 4
  {
    if k == 0 then 0x100_0000 else if k == 1 then 0x1_0000 else if k == 2 then 0x100 else 1
  }

  lemma AddByte(data: seq<Byte>, k: nat)
    requires k < 4 && k < |data|
    ensures Pack(data[..k + 1]) == Pack(data[..k]) + data[k] * Weight(k)
  {
  }

  /** Four bytes shifted into a word, or those that are left. */
  method TakeWord(data: seq<Byte>, pos: nat) returns (acc: nat, next: nat)
    requires pos < |data|
    ensures acc == Pack(data[pos..]) && next == pos + Group(data[pos..])
  {
    hide Pack;
    ghost var rest := data[pos..];
    acc, next := 0, pos;
    NoBytes();
    var k: nat := 0;
    while k < 4
      invariant k <= 4 && next == pos + k && next < |data|
      invariant acc == Pack(rest[..k])
    {
      AddByte(rest, k);
      acc := acc + data[next] * Weight(k);
      next := next + 1;
      k := k + 1;
      if next == |data| {
        break;
      }
    }
    PackFirst(rest, k);
  }

  lemma NoBytes()
    ensures Pack([]) == 0
  {
  }

  lemma PackFirst(data: seq<Byte>, k: nat)
    requires k == Group(data)
    ensures Pack(data[..k]) == Pack(data)
  {
  }

  /** The five letters of a word, last one first. */
  method PutLetters(word: nat) returns (letters: string)
    ensures letters == Letters(Digits(word, 5))
  {
    hide Digits;
    letters := "";
    var acc, cnt: nat := word, 5;
    ghost var ds: seq<nat> := [];
    while cnt > 0
      invariant (forall k :: 0 <= k < |ds| ==> ds[k] < 85) && letters == Letters(ds)
      invariant Digits(word, 5) == Digits(acc, cnt) + ds
    {
      var val := acc % 85;
      LastDigit(acc, cnt);
      ghost var front := Digits(acc / 85, cnt - 1);
      assert front + [val] + ds == front + ([val] + ds);
      acc := acc / 85;
      cnt := cnt - 1;
      letters := [En(val)] + letters;
      ds := [val] + ds;
    }
    NoDigits(acc);
    assert [] + ds == ds;
  }

  lemma LastDigit(x: nat, n: nat)
    requires n > 0
    ensures Digits(x, n) == Digits(x / 85, n - 1) + [x % 85]
  {
  }

  lemma NoDigits(x: nat)
    ensures Digits(x, 0) == []
  {
  }

  method Encode85(data: seq<Byte>) returns (buf: string)
    ensures buf == Encoded(data) + "\0"
  {
    hide Pack, Digits, Letters, Group, Encoded;
    buf := "";
    var pos: nat := 0;
    assert data[0..] == data && "" + Encoded(data) == Encoded(data);
    while pos < |data|
      invariant pos <= |data| && buf + Encoded(data[pos..]) == Encoded(data)
    {
      var acc, next := TakeWord(data, pos);
      var letters := PutLetters(acc);
      NextGroup(data[pos..]);
      assert data[pos..][next - pos..] == data[next..];
      assert buf + (letters + Encoded(data[next..])) == buf + letters + Encoded(data[next..]);
      buf := buf + letters;
      pos := next;
    }
    NothingEncoded(data[pos..]);
    assert buf + "" == buf;
    buf := buf + "\0";
  }

  lemma NextGroup(data: seq<Byte>)
    requires data != []
    ensures 0 < Group(data) <= |data| && Pack(data) >= 0
    ensures Encoded(data) == Letters(Digits(Pack(data), 5)) + Encoded(data[Group(data)..])
  {
    hide Digits, Letters;
    UnpackPack(data);
  }

  lemma NothingEncoded(data: seq<Byte>)
    requires data == []
    ensures Encoded(data) == ""
  {
  }

  /** Decoding what was encoded gives the data back, for every length. */
  lemma {:induction false} RoundTrip(data: seq<Byte>, t: string)
    ensures |Encoded(data) + t| >= LettersFor(|data|)
    ensures Decoded(Encoded(data) + t, |data|) == Some(data)
    decreases |data|
  {
    hide Digits, Value, DigitsOf, Pack, Unpack, Word, Letters, Encoded;
    if data == [] {
      NothingEncoded(data);
    } else {
      var g := Group(data);
      var more := data[g..];
      RoundTrip(more, t);
      NextGroup(data);
      var ds := Digits(Pack(data), 5);
      LettersLen(ds);
      var s := Encoded(data) + t;
      assert s == Letters(ds) + (Encoded(more) + t);
      assert s[..5] == Letters(ds) && s[5..] == Encoded(more) + t;
      GroupBack(data);
      assert data == data[..g] + more;
    }
  }

  /** One group's letters give its bytes back. */
  lemma GroupBack(data: seq<Byte>)
    ensures 0 <= Pack(data) <= MAX
    ensures var ds := Digits(Pack(data), 5);
      DigitsOf(Letters(ds)) == Some(ds) && Value(ds) == Pack(data)
    ensures Unpack(Pack(data))[..Group(data)] == data[..Group(data)]
  {
    hide Digits, Value, DigitsOf, Pack, Unpack, Letters;
    UnpackPack(data);
    DigitsOfLetters(Digits(Pack(data), 5));
    FitsFive(Pack(data));
  }

  // ---------------------------------------------------------------- decoding

  /** The value of a group, or None for a letter outside the alphabet or a value over 32 bits. */
  ghost function GroupValue(s: string): (r: Option<nat>)
    ensures r.Some? ==> r.value <= MAX
  {
    var ds := DigitsOf(s);
    if ds.None? || Value(ds.value) > MAX then None else Some(Value(ds.value))
  }

  lemma TableDigit(de85: seq<nat>, c: char)
    requires IsTable(de85) && c as int < 256
    ensures DigitOf(c, 0) == if de85[c as int] == 0 then None else Some(de85[c as int] - 1)
  {
    var d := DigitOf(c, 0);
    var v := de85[c as int];
    assert v != 0 ==> v <= 85 && En(v - 1) == c;
    if d.Some? {
      assert de85[En(d.value) as int] == d.value + 1;
    }
  }

  lemma DigitsStep(s: string, k: nat)
    requires k < |s|
    ensures var d := DigitOf(s[k], 0); var ds := DigitsOf(s[..k]);
      DigitsOf(s[..k + 1]) == if ds.None? || d.None? then None else Some(ds.value + [d.value])
  {
    hide DigitOf;
    assert s[..k + 1][..k] == s[..k];
  }

  lemma {:induction false} BadStaysBad(s: string, k: nat)
    requires k <= |s| && DigitsOf(s[..k]).None?
    ensures DigitsOf(s).None?
    decreases |s| - k
  {
    hide DigitsOf;
    if k < |s| {
      DigitsStep(s, k);
      BadStaysBad(s, k + 1);
    } else {
      assert s[..k] == s;
    }
  }

  lemma ValueStep(ds: seq<nat>, d: nat)
    ensures Value(ds + [d]) == Value(ds) * 85 + d
  {
    assert (ds + [d])[..|ds|] == ds;
  }

  /** Five letters into a word, with the overflow test made before the last multiplication. */
  method TakeLetters(de85: array<nat>, s: string) returns (r: Option<nat>)
    requires IsTable(de85[..]) && |s| == 5 && forall k :: 0 <= k < 5 ==> s[k] as int < 256
    ensures r == GroupValue(s)
  {
    hide DigitsOf, DigitOf, Value, IsTable;
    var acc: nat := 0;
    ghost var ds: seq<nat> := [];
    NoLetters();
    ghost var table := de85[..];
    TableSize(table);
    for k := 0 to 4
      invariant de85[..] == table && DigitsOf(s[..k]) == Some(ds) && acc == Value(ds)
      invariant acc < [1, 85, 7225, 614125, 52200625][k]
    {
      TableDigit(table, s[k]);
      DigitsStep(s, k);
      var de := de85[s[k] as int];
      if de == 0 {
        BadStaysBad(s, k + 1);
        return None;
      }
      ValueStep(ds, de - 1);
      DigitSmall(s[k]);
      ds := ds + [de - 1];
      acc := acc * 85 + (de - 1);
    }
    TableDigit(table, s[4]);
    DigitsStep(s, 4);
    DigitSmall(s[4]);
    assert s[..5] == s;
    var de := de85[s[4] as int];
    if de == 0 {
      return None;
    }
    de := de - 1;
    ValueStep(ds, de);
    if MAX / 85 < acc || MAX - de < acc * 85 {
      return None;
    }
    return Some(acc * 85 + de);
  }

  lemma NoLetters()
    ensures DigitsOf("") == Some([]) && Value([]) == 0
  {
  }

  lemma TableSize(de85: seq<nat>)
    requires IsTable(de85)
    ensures |de85| == 256
  {
  }

  lemma DigitSmall(c: char)
    ensures DigitOf(c, 0).Some? ==> DigitOf(c, 0).value < 85
  {
  }

  /** The bytes of a word, highest first, by rotating it. */
  method PutBytes(word: nat, cnt: nat) returns (bytes: seq<Byte>)
    requires word <= MAX && cnt <= 4
    ensures bytes == Unpack(word)[..cnt]
  {
    hide Word, Rotate;
    bytes := [];
    var acc: int := word;
    PackUnpack(word);
    ghost var b := Unpack(word);
    for i := 0 to cnt
      invariant bytes == b[..i] && acc == Word(b[i % 4], b[(i + 1) % 4], b[(i + 2) % 4], b[(i + 3) % 4])
    {
      RotateWord(b[i % 4], b[(i + 1) % 4], b[(i + 2) % 4], b[(i + 3) % 4]);
      acc := Rotate(acc);
      assert b[..i + 1] == b[..i] + [b[i]];
      bytes := bytes + [acc % 256];
    }
  }

  /** Decodes `len` bytes; the caller provides all their letters. */
  method Decode85(buffer: string, len: nat) returns (dst: Option<seq<Byte>>)
    requires |buffer| >= LettersFor(len) && forall k :: 0 <= k < |buffer| ==> buffer[k] as int < 256
    ensures dst == Decoded(buffer, len)
  {
    hide GroupValue, Unpack, IsTable, Decoded, Prefixed;
    var de85 := PrepBase85();
    var out: seq<Byte> := [];
    var rest, left := buffer, len;
    PrefixedNothing(Decoded(buffer, len));
    while left != 0
      invariant |rest| >= LettersFor(left) && IsTable(de85[..]) && forall k :: 0 <= k < |rest| ==> rest[k] as int < 256
      invariant Decoded(buffer, len) == Prefixed(out, Decoded(rest, left))
      decreases left
    {
      NextLetters(rest, left);
      ghost var after := Decoded(rest[5..], left - if left < 4 then left else 4);
      var acc := TakeLetters(de85, rest[..5]);
      if acc.None? {
        PrefixedNone(out);
        return None;
      }
      var cnt := if left < 4 then left else 4;
      var bytes := PutBytes(acc.value, cnt);
      PrefixedTwice(out, bytes, after);
      out := out + bytes;
      rest := rest[5..];
      left := left - cnt;
    }
    NothingLeft(out, rest);
    return Some(out);
  }

  ghost function Prefixed(a: seq<Byte>, r: Option<seq<Byte>>): Option<seq<Byte>> {
    if r.None? then None else Some(a + r.value)
  }

  lemma PrefixedNothing(r: Option<seq<Byte>>)
    ensures Prefixed([], r) == r
  {
    if r.Some? { assert [] + r.value == r.value; }
  }

  lemma PrefixedNone(a: seq<Byte>)
    ensures Prefixed(a, None) == None
  {
  }

  lemma PrefixedTwice(a: seq<Byte>, b: seq<Byte>, r: Option<seq<Byte>>)
    ensures Prefixed(a, Prefixed(b, r)) == Prefixed(a + b, r)
  {
    if r.Some? { assert a + (b + r.value) == a + b + r.value; }
  }

  lemma NothingLeft(a: seq<Byte>, rest: string)
    ensures Prefixed(a, Decoded(rest, 0)) == Some(a)
  {
    assert a + [] == a;
  }

  lemma NextLetters(buffer: string, len: nat)
    requires 0 < len && |buffer| >= LettersFor(len)
    ensures var cnt := if len < 4 then len else 4; var g := GroupValue(buffer[..5]);
      Decoded(buffer, len) ==
        if g.None? then None else Prefixed(Unpack(g.value)[..cnt], Decoded(buffer[5..], len - cnt))
  {
    hide DigitsOf, Value, Unpack;
  }
}
