/** What the chunks of a text of short lines are, and when two such texts share nothing (diffcore-delta.c:134-183). */
module SpanLines {
  import opened SpanSpec

  // ---------------------------------------------------------------- CRLF and LF

  function WithoutCrs(s: seq<Byte>): seq<Byte> {
    if s == [] then []
    else (if |s| > 1 && s[0] == 13 && s[1] == 10 then [] else [s[0]]) + WithoutCrs(s[1..])
  }

  /** A text has the chunks of the same text with LF line ends. */
  lemma {:induction false} CrLfSame(s: seq<Byte>, acc: Acc)
    ensures Spans(true, s, acc) == Spans(false, WithoutCrs(s), acc)
  {
    hide Mix, HashVal;
    if s != [] {
      var more := WithoutCrs(s[1..]);
      if Skipped(true, s) {
        assert [] + more == more;
        CrLfSame(s[1..], acc);
      } else {
        var r := [s[0]] + more;
        assert WithoutCrs(s) == r && r[0] == s[0] && r[1..] == more;
        CrLfSame(s[1..], Mix(acc, s[0]));
        CrLfSame(s[1..], ZERO);
      }
    }
  }

  // ---------------------------------------------------------------- one chunk for each line

  /** A line with its LF that fits a chunk. */
  ghost predicate IsLine(l: seq<Byte>) {
    0 < |l| <= 64 && l[|l| - 1] == 10 && forall i :: 0 <= i < |l| - 1 ==> l[i] != 10
  }

  function MixAll(acc: Acc, s: seq<Byte>): Acc
    decreases |s|
  {
    if s == [] then acc else MixAll(Mix(acc, s[0]), s[1..])
  }

  function LineHash(l: seq<Byte>): nat {
    HashVal(MixAll(ZERO, l))
  }

  lemma {:induction false} ChunkEnds(l: seq<Byte>, t: seq<Byte>, acc: Acc)
    requires IsLine(l) && acc.n + |l| <= 64
    ensures Spans(false, l + t, acc) == [Span(HashVal(MixAll(acc, l)), acc.n + |l|)] + Spans(false, t, ZERO)
    decreases |l|
  {
    hide Mix, HashVal;
    assert (l + t)[0] == l[0] && (l + t)[1..] == l[1..] + t;
    if |l| == 1 {
      assert l[1..] + t == t && MixAll(acc, l) == Mix(acc, l[0]);
    } else {
      ChunkEnds(l[1..], t, Mix(acc, l[0]));
    }
  }

  function Joined(lines: seq<seq<Byte>>): seq<Byte> {
    if lines == [] then [] else lines[0] + Joined(lines[1..])
  }

  function Chunks(lines: seq<seq<Byte>>): seq<Span> {
    if lines == [] then [] else [Span(LineHash(lines[0]), |lines[0]|)] + Chunks(lines[1..])
  }

  lemma {:induction false} LinesAreChunks(lines: seq<seq<Byte>>)
    requires forall i :: 0 <= i < |lines| ==> IsLine(lines[i])
    ensures Spans(false, Joined(lines), ZERO) == Chunks(lines)
  {
    hide MixAll, HashVal;
    if lines != [] {
      ChunkEnds(lines[0], Joined(lines[1..]), ZERO);
      LinesAreChunks(lines[1..]);
    }
  }

  // ---------------------------------------------------------------- hash values of short lines

  lemma MixShort(acc: Acc, c: Byte)
    requires acc.sum < 0x100_0000
    ensures Mix(acc, c).sum == acc.sum * 128 + c
  {
    var x: Sum := acc.sum * 128;
    assert Turned(acc.sum) == x;
    assert x / WORD == 0 && x % WORD == x && (x + c) % WORD == x + c;
  }

  function Poly(x: nat, s: seq<Byte>): nat
    decreases |s|
  {
    if s == [] then x else Poly(x * 128 + s[0], s[1..])
  }

  lemma {:induction false} MixAllShort(acc: Acc, s: seq<Byte>)
    requires |s| <= 4
    requires |s| > 0 ==> acc.sum < 0x100_0000
    requires |s| > 1 ==> acc.sum < 0x1_0000
    requires |s| > 2 ==> acc.sum < 0x100
    requires |s| > 3 ==> acc.sum == 0
    requires acc.sum < WORD
    ensures MixAll(acc, s).sum == Poly(acc.sum, s) < WORD
    decreases |s|
  {
    hide Mix;
    if s != [] {
      MixShort(acc, s[0]);
      MixAllShort(Mix(acc, s[0]), s[1..]);
    }
  }

  /** Of up to four bytes the hash value is a polynomial modulo the base. */
  lemma ShortHash(l: seq<Byte>)
    requires |l| <= 4
    ensures LineHash(l) == Poly(0, l) % 107927
  {
    MixAllShort(ZERO, l);
  }

  // ---------------------------------------------------------------- lines of one character

  /** At most one character before the LF, which is not a NUL. */
  ghost predicate Small(l: seq<Byte>) {
    l == [10] || (|l| == 2 && l[1] == 10 && l[0] != 10 && l[0] != 0)
  }

  lemma SmallHash(l: seq<Byte>)
    requires Small(l)
    ensures LineHash(l) == if |l| == 1 then 10 else l[0] as int * 128 + 10
  {
    hide LineHash;
    ShortHash(l);
    if |l| == 2 {
      var x: nat := l[0];
      assert Poly(0, l) == Poly(x, l[1..]) == Poly(x * 128 + 10, l[1..][1..]);
    }
  }

  /** Different such lines have different hash values. */
  lemma SmallDistinct(l: seq<Byte>, m: seq<Byte>)
    requires Small(l) && Small(m) && LineHash(l) == LineHash(m)
    ensures l == m
  {
    hide LineHash;
    SmallHash(l);
    SmallHash(m);
  }

  /** A line is counted under its hash value with all its bytes as often as it is there. */
  lemma {:induction false} CountsLines(lines: seq<seq<Byte>>, l: seq<Byte>)
    requires Small(l) && forall i :: 0 <= i < |lines| ==> Small(lines[i])
    ensures Count(Chunks(lines), LineHash(l)) == |l| * multiset(lines)[l]
  {
    hide LineHash, Small;
    if lines != [] {
      var one := [Span(LineHash(lines[0]), |lines[0]|)];
      assert lines == [lines[0]] + lines[1..];
      CountsLines(lines[1..], l);
      CountConcat(one, Chunks(lines[1..]), LineHash(l));
      assert one[..0] == [];
      if LineHash(l) == LineHash(lines[0]) { SmallDistinct(l, lines[0]); }
      Times(|l|, multiset(lines[1..])[l]);
    }
  }

  lemma Times(n: nat, k: nat)
    ensures n * (k + 1) == n + n * k
  {
  }

  lemma {:induction false} CountsOther(lines: seq<seq<Byte>>, v: nat)
    requires forall i :: 0 <= i < |lines| ==> LineHash(lines[i]) != v
    ensures Count(Chunks(lines), v) == 0
  {
    hide LineHash;
    if lines != [] {
      var one := [Span(LineHash(lines[0]), |lines[0]|)];
      CountsOther(lines[1..], v);
      CountConcat(one, Chunks(lines[1..]), v);
      assert one[..0] == [];
    }
  }

  /** Texts of such lines without a common line share nothing. */
  lemma {:induction false} NothingShared(a: seq<seq<Byte>>, b: seq<seq<Byte>>, n: nat)
    requires forall i :: 0 <= i < |a| ==> Small(a[i]) && a[i] !in b
    requires forall i :: 0 <= i < |b| ==> Small(b[i])
    ensures Copied(Spans(false, Joined(a), ZERO), Spans(false, Joined(b), ZERO), n) == 0
  {
    hide LineHash, Small, Count;
    SmallChunks(a);
    SmallChunks(b);
    if n > 0 {
      NothingShared(a, b, n - 1);
      if i :| 0 <= i < |a| && LineHash(a[i]) == n - 1 {
        CountsLines(b, a[i]);
      } else {
        CountsOther(a, n - 1);
      }
    }
  }

  lemma SmallChunks(lines: seq<seq<Byte>>)
    requires forall i :: 0 <= i < |lines| ==> Small(lines[i])
    ensures Spans(false, Joined(lines), ZERO) == Chunks(lines)
  {
    hide Chunks, Joined, Spans;
    LinesAreChunks(lines);
  }
}
