/** Chunks of a file's text by hash value, and what a table of them counts (diffcore-delta.c:30-183). */
module SpanSpec {

  /** A prime below the free room of a table of 2^17 slots. */
  const HASHBASE := 107927

  const LF := 10
  const CR := 13

  type Byte = n: nat | n < 256

  // ---------------------------------------------------------------- cutting a text into chunks

  const WORD := 0x1_0000_0000

  /** Two words as one number of 64 bits. */
  type Sum = x: nat | x < 0x1_0000_0000_0000_0000

  /** The running hash of a chunk and its length. */
  datatype Acc = Acc(sum: Sum, n: nat)

  const ZERO := Acc(0, 0)

  /** All 64 bits turned left by seven places. */
  function Turned(x: Sum): Sum {
    x % 0x200_0000_0000_0000 * 128 + x / 0x200_0000_0000_0000
  }

  /** The byte goes to the low word; a carry is lost. */
  function AddLow(x: Sum, c: Byte): Sum {
    x / WORD * WORD + (x % WORD + c) % WORD
  }

  function Mix(acc: Acc, c: Byte): (r: Acc)
    ensures r.n == acc.n + 1
  {
    Acc(AddLow(Turned(acc.sum), c), acc.n + 1)
  }

  function HashVal(acc: Acc): (h: nat)
    ensures h < HASHBASE
  {
    (acc.sum % WORD + acc.sum / WORD * 97) % WORD % HASHBASE
  }

  /** The seven places a shift makes free are where the other word's top bits go, so that xor adds. */
  lemma XorAdds(x: bv32, y: bv32)
    ensures (x << 7) ^ (y >> 25) == (x << 7) + (y >> 25)
    ensures x << 7 == x * 128 && y >> 25 == y / 0x200_0000
  {
  }

  /** Shifting two words into each other turns the 64 bits they make up. */
  lemma TurnsWords(a1: nat, a2: nat)
    requires a1 < WORD && a2 < WORD
    ensures a2 * WORD + a1 < WORD * WORD
    ensures var b1, b2 := a1 * 128 % WORD + a2 / 0x200_0000, a2 * 128 % WORD + a1 / 0x200_0000;
      b1 < WORD && b2 < WORD && Turned(a2 * WORD + a1) == b2 * WORD + b1
  {
    var l1, h2, l2 := a1 % 0x200_0000, a2 / 0x200_0000, a2 % 0x200_0000;
    assert a1 * 128 % WORD == l1 * 128 && a2 * 128 % WORD == l2 * 128;
    var x := a2 * WORD + a1;
    assert x / 0x200_0000_0000_0000 == h2;
    assert x % 0x200_0000_0000_0000 == l2 * WORD + a1;
  }

  lemma LowHigh(a1: nat, a2: nat)
    requires a1 < WORD && a2 < WORD
    ensures (a2 * WORD + a1) / WORD == a2 && (a2 * WORD + a1) % WORD == a1
  {
  }

  /** One byte, on the two words. */
  lemma MixesWords(acc: Acc, a1: nat, a2: nat, c: Byte)
    requires a1 < WORD && a2 < WORD && acc.sum == a2 * WORD + a1
    ensures var b1, b2 := a1 * 128 % WORD + a2 / 0x200_0000, a2 * 128 % WORD + a1 / 0x200_0000;
      b1 < WORD && b2 < WORD && Mix(acc, c).sum == b2 * WORD + (b1 + c) % WORD
  {
    hide Turned;
    TurnsWords(a1, a2);
    LowHigh(a1 * 128 % WORD + a2 / 0x200_0000, a2 * 128 % WORD + a1 / 0x200_0000);
  }

  lemma HashOfWords(acc: Acc, a1: nat, a2: nat)
    requires a1 < WORD && a2 < WORD && acc.sum == a2 * WORD + a1
    ensures HashVal(acc) == (a1 + a2 * 97) % WORD % HASHBASE
  {
    LowHigh(a1, a2);
  }

  datatype Span = Span(hashval: nat, cnt: nat)

  /** In text the CR of a CRLF is not looked at. */
  predicate Skipped(isText: bool, s: seq<Byte>)
    requires s != []
  {
    isText && s[0] == CR && |s| > 1 && s[1] == LF
  }

  /** A chunk ends at an LF or after 64 bytes.  Bytes after the last end belong to no chunk. */
  function Spans(isText: bool, s: seq<Byte>, acc: Acc): seq<Span> {
    if s == [] then []
    else if Skipped(isText, s) then Spans(isText, s[1..], acc)
    else
      var acc' := Mix(acc, s[0]);
      if acc'.n < 64 && s[0] != LF then Spans(isText, s[1..], acc')
      else [Span(HashVal(acc'), acc'.n)] + Spans(isText, s[1..], ZERO)
  }

  /** How many bytes are left over in an unfinished chunk, and how many CRs are skipped. */
  function LeftOver(isText: bool, s: seq<Byte>, n: nat): nat {
    if s == [] then n
    else if Skipped(isText, s) then LeftOver(isText, s[1..], n)
    else LeftOver(isText, s[1..], if n + 1 < 64 && s[0] != LF then n + 1 else 0)
  }

  function CrsSkipped(isText: bool, s: seq<Byte>): nat {
    if s == [] then 0 else CrsSkipped(isText, s[1..]) + if Skipped(isText, s) then 1 else 0
  }

  // ---------------------------------------------------------------- what a table or chunk list counts

  /** Bytes counted under one hash value, and in all. */
  function Count(data: seq<Span>, v: nat): nat {
    if data == [] then 0
    else Count(data[..|data| - 1], v) + if data[|data| - 1].hashval == v then data[|data| - 1].cnt else 0
  }

  function Total(data: seq<Span>): nat {
    if data == [] then 0 else Total(data[..|data| - 1]) + data[|data| - 1].cnt
  }

  lemma {:induction false} CountConcat(a: seq<Span>, b: seq<Span>, v: nat)
    ensures Count(a + b, v) == Count(a, v) + Count(b, v)
    ensures Total(a + b) == Total(a) + Total(b)
  {
    if b == [] {
      assert a + b == a;
    } else {
      assert (a + b)[..|a + b| - 1] == a + b[..|b| - 1];
      CountConcat(a, b[..|b| - 1], v);
    }
  }

  /** Every byte is counted, skipped as a CR before an LF, or left over at the end. */
  lemma {:induction false} SpansAccount(isText: bool, s: seq<Byte>, acc: Acc)
    requires acc.n < 64
    ensures acc.n + |s| == Total(Spans(isText, s, acc)) + CrsSkipped(isText, s) + LeftOver(isText, s, acc.n)
  {
    hide Mix, HashVal;
    if s != [] {
      if Skipped(isText, s) {
        SpansAccount(isText, s[1..], acc);
      } else {
        var acc' := Mix(acc, s[0]);
        if acc'.n < 64 && s[0] != LF {
          SpansAccount(isText, s[1..], acc');
        } else {
          SpansAccount(isText, s[1..], ZERO);
          CountConcat([Span(HashVal(acc'), acc'.n)], Spans(isText, s[1..], ZERO), 0);
          assert [Span(HashVal(acc'), acc'.n)][..0] == [];
        }
      }
    }
  }

  /** Nothing is left over when the text ends in an LF. */
  lemma {:induction false} LineLeavesNothing(isText: bool, s: seq<Byte>, n: nat)
    requires s != [] && s[|s| - 1] == LF
    ensures LeftOver(isText, s, n) == 0
  {
    if |s| > 1 {
      LineLeavesNothing(isText, s[1..],
                        if Skipped(isText, s) then n else if n + 1 < 64 && s[0] != LF then n + 1 else 0);
    } else {
      assert s[1..] == [];
    }
  }

  lemma {:induction false} HashesInRange(isText: bool, s: seq<Byte>, acc: Acc)
    ensures forall sp :: sp in Spans(isText, s, acc) ==> sp.hashval < HASHBASE && sp.cnt > 0
  {
    hide Mix, HashVal;
    if s != [] {
      HashesInRange(isText, s[1..], acc);
      HashesInRange(isText, s[1..], Mix(acc, s[0]));
      HashesInRange(isText, s[1..], ZERO);
    }
  }

  // ---------------------------------------------------------------- comparing two tables

  function Min(a: nat, b: nat): nat {
    if a < b then a else b
  }

  /** What both files have of each hash value below `n`; and what `dst` has more of. */
  function Copied(src: seq<Span>, dst: seq<Span>, n: nat): nat {
    if n == 0 then 0 else Copied(src, dst, n - 1) + Min(Count(src, n - 1), Count(dst, n - 1))
  }

  function Added(src: seq<Span>, dst: seq<Span>, n: nat): nat {
    if n == 0 then 0
    else
      var there, here := Count(dst, n - 1), Count(src, n - 1);
      Added(src, dst, n - 1) + if there > here then there - here else 0
  }

  function SumBelow(data: seq<Span>, n: nat): nat {
    if n == 0 then 0 else SumBelow(data, n - 1) + Count(data, n - 1)
  }

  lemma {:induction false} CopiedPlusAdded(src: seq<Span>, dst: seq<Span>, n: nat)
    ensures Copied(src, dst, n) + Added(src, dst, n) == SumBelow(dst, n)
    ensures Copied(src, dst, n) <= SumBelow(src, n)
  {
    hide Count;
    if n > 0 { CopiedPlusAdded(src, dst, n - 1); }
  }

  /** Summing by hash value or by chunk is the same. */
  lemma {:induction false} SumIsTotal(data: seq<Span>, n: nat)
    requires forall sp :: sp in data ==> sp.hashval < n
    ensures SumBelow(data, n) == Total(data)
  {
    if data == [] {
      NothingBelow(n);
    } else {
      var rest, last := data[..|data| - 1], data[|data| - 1];
      assert data == rest + [last];
      forall sp | sp in rest ensures sp.hashval < n { assert sp in data; }
      SumIsTotal(rest, n);
      assert last in data;
      OneMore(data, n);
    }
  }

  lemma {:induction false} NothingBelow(n: nat)
    ensures SumBelow([], n) == 0
  {
    if n > 0 { NothingBelow(n - 1); }
  }

  lemma {:induction false} OneMore(data: seq<Span>, n: nat)
    requires data != []
    ensures SumBelow(data, n)
         == SumBelow(data[..|data| - 1], n) + if data[|data| - 1].hashval < n then data[|data| - 1].cnt else 0
  {
    if n > 0 { OneMore(data, n - 1); }
  }

  /** A file adds nothing to itself. */
  lemma {:induction false} NothingAdded(data: seq<Span>, n: nat)
    ensures Added(data, data, n) == 0
  {
    hide Count;
    if n > 0 { NothingAdded(data, n - 1); }
  }

  /** Two tables that count alike compare alike. */
  lemma {:induction false} SameCounts(src: seq<Span>, dst: seq<Span>, src': seq<Span>, dst': seq<Span>, n: nat)
    requires forall v :: Count(src, v) == Count(src', v)
    requires forall v :: Count(dst, v) == Count(dst', v)
    ensures Copied(src, dst, n) == Copied(src', dst', n) && Added(src, dst, n) == Added(src', dst', n)
  {
    hide Count;
    if n > 0 { SameCounts(src, dst, src', dst', n - 1); }
  }
}
