/** The rolling fingerprint of diff-delta.c (diff-delta.c:17-120, 182-191, 359-373, 455-461).

    The 256-entry tables T and U are XOR-linear: each entry is the XOR of the entries at the powers
    of two that make up its index.  They are given here by those eight entries each. */
module Rabin {

  type byte = x: int | 0 <= x < 256

  const RABIN_WINDOW := 16

  const T_BASIS: seq<bv32> := [0xab59b4d1, 0x56b369a2, 0x063f6795, 0x0c7ecf2a,
                               0x18fd9e54, 0x31fb3ca8, 0x63f67950, 0x6cb54671]
  const U_BASIS: seq<bv32> := [0x7eb5200d, 0x5633f4cb, 0x073e5d47, 0x0e7cba8e,
                               0x1cf9751c, 0x39f2ea38, 0x73e5d470, 0x4c921c31]

  // Words as a vector space: these six operations, and the laws below, are all that is used of bits.

  function Xor(a: bv32, b: bv32): bv32 { a ^ b }

  function Half(i: bv32): bv32 { i >> 1 }

  function Top(v: bv32): bv32 { v >> 23 }

  function Append(v: bv32, b: bv32): bv32 { (v << 8) | b }

  predicate Odd(i: bv32) { i & 1 == 1 }

  /** Bit 31 is set: the value cannot index T once shifted. */
  predicate High(v: bv32) { v >= 0x8000_0000 }

  lemma XorComm(a: bv32, b: bv32)
    ensures Xor(a, b) == Xor(b, a)
  {
  }

  lemma XorAssoc(a: bv32, b: bv32, c: bv32)
    ensures Xor(Xor(a, b), c) == Xor(a, Xor(b, c))
  {
  }

  lemma XorSelf(a: bv32)
    ensures Xor(a, a) == 0
  {
  }

  lemma XorZero(a: bv32)
    ensures Xor(a, 0) == a
  {
  }

  lemma Regroup(a: bv32, b: bv32, c: bv32, d: bv32)
    ensures Xor(Xor(a, b), Xor(c, d)) == Xor(Xor(a, c), Xor(b, d))
  {
    hide Xor;
    XorAssoc(a, b, Xor(c, d));
    XorAssoc(b, c, d);
    XorComm(b, c);
    XorAssoc(c, b, d);
    XorAssoc(a, c, Xor(b, d));
  }

  lemma HalfLinear(i: bv32, j: bv32)
    ensures Half(Xor(i, j)) == Xor(Half(i), Half(j))
  {
  }

  lemma OddLinear(i: bv32, j: bv32)
    ensures Odd(Xor(i, j)) <==> Odd(i) != Odd(j)
  {
  }

  lemma HighLinear(i: bv32, j: bv32)
    ensures High(Xor(i, j)) <==> High(i) != High(j)
  {
  }

  lemma TopLinear(i: bv32, j: bv32)
    ensures Top(Xor(i, j)) == Xor(Top(i), Top(j))
  {
  }

  lemma AppendLinear(v: bv32, w: bv32, b: bv32)
    requires b <= 0xff
    ensures Append(Xor(v, w), b) == Xor(Append(v, b), Append(w, 0))
  {
  }

  lemma AppendHigh(v: bv32, b: bv32)
    requires b <= 0xff
    ensures High(Append(v, b)) <==> Odd(Top(v))
  {
  }

  lemma SmallWords(v: bv32)
    ensures v <= 0xff ==> !High(v) && Top(v) == 0 && Append(0, v) == v
    ensures !High(v) ==> Top(v) <= 0xff
  {
  }

  // ---------------------------------------------------------------- the tables

  /** `entry` if the lowest bit of `i` is set, else 0. */
  function Pick(i: bv32, entry: bv32): bv32 {
    (0 - (i & 1)) & entry
  }

  lemma PickIs(i: bv32, entry: bv32)
    ensures Pick(i, entry) == if Odd(i) then entry else 0
  {
    assert i & 1 == 0 || i & 1 == 1;
  }

  /** The XOR of the basis entries selected by the low bits of `i`. */
  function Entry(basis: seq<bv32>, i: bv32): bv32 {
    if basis == [] then 0 else Xor(Pick(i, basis[0]), Entry(basis[1..], Half(i)))
  }

  function T(i: bv32): bv32 { Entry(T_BASIS, i) }

  function U(i: bv32): bv32 { Entry(U_BASIS, i) }

  lemma PickLinear(i: bv32, j: bv32, entry: bv32)
    ensures Pick(Xor(i, j), entry) == Xor(Pick(i, entry), Pick(j, entry))
  {
    hide Xor, Odd, Pick;
    PickIs(i, entry);
    PickIs(j, entry);
    PickIs(Xor(i, j), entry);
    XorSelf(entry);
    XorZero(entry);
    XorComm(entry, 0);
    XorZero(0);
    OddLinear(i, j);
  }

  lemma {:induction false} EntryLinear(basis: seq<bv32>, i: bv32, j: bv32)
    ensures Entry(basis, Xor(i, j)) == Xor(Entry(basis, i), Entry(basis, j))
  {
    hide Pick, Xor, Half;
    if basis == [] {
      XorZero(0);
    } else {
      var e, rest := basis[0], basis[1..];
      PickLinear(i, j, e);
      HalfLinear(i, j);
      EntryLinear(rest, Half(i), Half(j));
      Regroup(Pick(i, e), Pick(j, e), Entry(rest, Half(i)), Entry(rest, Half(j)));
    }
  }

  lemma {:induction false} EntryLow(basis: seq<bv32>, i: bv32)
    requires forall k :: 0 <= k < |basis| ==> !High(basis[k])
    ensures !High(Entry(basis, i))
  {
    hide Xor, High, Odd, Half, Pick;
    SmallWords(0);
    if basis != [] {
      PickIs(i, basis[0]);
      EntryLow(basis[1..], Half(i));
      HighLinear(Pick(i, basis[0]), Entry(basis[1..], Half(i)));
    }
  }

  lemma THigh(i: bv32)
    ensures High(T(i)) <==> Odd(i)
  {
    hide Xor, Odd, Half, Pick;
    assert High(T_BASIS[0]) && !High(0);
    PickIs(i, T_BASIS[0]);
    EntryLow(T_BASIS[1..], Half(i));
    HighLinear(Pick(i, T_BASIS[0]), Entry(T_BASIS[1..], Half(i)));
  }

  // ---------------------------------------------------------------- the fingerprint

  /** One step, with the byte already widened. */
  function PushBits(val: bv32, b: bv32): bv32 {
    Xor(Append(val, b), T(Top(val)))
  }

  lemma PushStaysLow(val: bv32, b: bv32)
    requires b <= 0xff
    ensures !High(PushBits(val, b))
  {
    hide Xor, Append, T, Top, Odd, High;
    AppendHigh(val, b);
    THigh(Top(val));
    HighLinear(Append(val, b), T(Top(val)));
  }

  lemma PushLinear(v: bv32, w: bv32, b: bv32)
    requires b <= 0xff
    ensures PushBits(Xor(v, w), b) == Xor(PushBits(v, b), PushBits(w, 0))
  {
    hide Xor, Append, Top;
    AppendLinear(v, w, b);
    TopLinear(v, w);
    EntryLinear(T_BASIS, Top(v), Top(w));
    Regroup(Append(v, b), Append(w, 0), T(Top(v)), T(Top(w)));
  }

  /** `v` followed by `n` zero bytes. */
  function Zeros(v: bv32, n: nat): bv32 {
    if n == 0 then v else PushBits(Zeros(v, n - 1), 0)
  }

  // ---------------------------------------------------------------- the table U

  /** A table entry spelled out on bits, for evaluating it on constants. */
  function Spelled(e: seq<bv32>, i: bv32): bv32
    requires |e| == 8
  {
    Xor(Pick(i, e[0]), Xor(Pick(i >> 1, e[1]), Xor(Pick(i >> 2, e[2]), Xor(Pick(i >> 3, e[3]),
    Xor(Pick(i >> 4, e[4]), Xor(Pick(i >> 5, e[5]), Xor(Pick(i >> 6, e[6]), Pick(i >> 7, e[7]))))))))
  }

  lemma HalvesAreShifts(i: bv32)
    ensures Half(i) == i >> 1 && Half(i >> 1) == i >> 2 && Half(i >> 2) == i >> 3 && Half(i >> 3) == i >> 4
    ensures Half(i >> 4) == i >> 5 && Half(i >> 5) == i >> 6 && Half(i >> 6) == i >> 7
  {
  }

  lemma EntryIsSpelled(e: seq<bv32>, i: bv32)
    requires |e| == 8
    ensures Entry(e, i) == Spelled(e, i)
  {
    hide Half, Odd, Pick, Xor;
    HalvesAreShifts(i);
    var h := [i, i >> 1, i >> 2, i >> 3, i >> 4, i >> 5, i >> 6, i >> 7];
    XorZero(Pick(h[7], e[7]));
    assert Entry(e[8..], Half(h[7])) == 0;
    TailEntry(e, h[7], 7);
    TailEntry(e, h[6], 6);
    TailEntry(e, h[5], 5);
    TailEntry(e, h[4], 4);
    TailEntry(e, h[3], 3);
    TailEntry(e, h[2], 2);
    TailEntry(e, h[1], 1);
    TailEntry(e, h[0], 0);
    assert e[0..] == e;
  }

  lemma TailEntry(e: seq<bv32>, i: bv32, k: nat)
    requires k < |e|
    ensures Entry(e[k..], i) == Xor(Pick(i, e[k]), Entry(e[k + 1..], Half(i)))
  {
    hide Xor, Half, Pick;
    assert e[k..][0] == e[k] && e[k..][1..] == e[k + 1..];
  }

  const POWERS: seq<bv32> := [0x01, 0x02, 0x04, 0x08, 0x10, 0x20, 0x40, 0x80]

  lemma ByteSpelled(x: bv32)
    requires x <= 0xff
    ensures Spelled(POWERS, x) == x
  {
  }

  function PushZero(v: bv32): bv32 { Xor(Append(v, 0), Spelled(T_BASIS, Top(v))) }

  lemma PushZeroIs(v: bv32)
    ensures PushZero(v) == PushBits(v, 0)
  {
    hide Spelled, Xor, Append, Top;
    EntryIsSpelled(T_BASIS, Top(v));
  }

  function Push3(v: bv32): bv32 { PushZero(PushZero(PushZero(v))) }

  function Push15(v: bv32): bv32 { Push3(Push3(Push3(Push3(Push3(v))))) }

  lemma Push3IsZeros(v: bv32, n: nat)
    ensures Push3(Zeros(v, n)) == Zeros(v, n + 3)
  {
    hide PushZero, PushBits;
    PushZeroIs(Zeros(v, n));
    PushZeroIs(Zeros(v, n + 1));
    PushZeroIs(Zeros(v, n + 2));
  }

  lemma Push15IsZeros(v: bv32)
    ensures Push15(v) == Zeros(v, 15)
  {
    hide Push3, PushBits;
    assert Zeros(v, 0) == v;
    Push3IsZeros(v, 0);
    Push3IsZeros(v, 3);
    Push3IsZeros(v, 6);
    Push3IsZeros(v, 9);
    Push3IsZeros(v, 12);
  }

  lemma UBasis0()
    ensures Push15(0x1) == 0x7eb5200d
  {
  }

  lemma UBasis1()
    ensures Push15(0x2) == 0x5633f4cb
  {
  }

  lemma UBasis2()
    ensures Push15(0x4) == 0x073e5d47
  {
  }

  lemma UBasis3()
    ensures Push15(0x8) == 0x0e7cba8e
  {
  }

  lemma UBasis4()
    ensures Push15(0x10) == 0x1cf9751c
  {
  }

  lemma UBasis5()
    ensures Push15(0x20) == 0x39f2ea38
  {
  }

  lemma UBasis6()
    ensures Push15(0x40) == 0x73e5d470
  {
  }

  lemma UBasis7()
    ensures Push15(0x80) == 0x4c921c31
  {
  }

  lemma TOfZero()
    ensures T(0) == 0
  {
    hide Xor, Entry;
    XorZero(0);
    EntryLinear(T_BASIS, 0, 0);
    XorSelf(T(0));
  }

  lemma PushOntoZero(b: bv32)
    requires b <= 0xff
    ensures PushBits(0, b) == b
  {
    hide Xor, Append, Top, T;
    SmallWords(0);
    SmallWords(b);
    TOfZero();
    XorZero(b);
  }

  lemma {:induction false} ZerosLinear(v: bv32, w: bv32, n: nat)
    ensures Zeros(Xor(v, w), n) == Xor(Zeros(v, n), Zeros(w, n))
  {
    hide Xor, PushBits;
    if n > 0 {
      ZerosLinear(v, w, n - 1);
      PushLinear(Zeros(v, n - 1), Zeros(w, n - 1), 0);
    }
  }

  lemma {:induction false} ZerosOfZero(n: nat)
    ensures Zeros(0, n) == 0
  {
    hide PushBits;
    if n > 0 {
      ZerosOfZero(n - 1);
      PushOntoZero(0);
    }
  }

  /** Appending zeros to a selected entry selects the appended-to entry. */
  lemma ZerosPick(i: bv32, e: bv32, n: nat)
    ensures Zeros(Pick(i, e), n) == Pick(i, Zeros(e, n))
  {
    hide Pick, PushBits;
    PickIs(i, e);
    PickIs(i, Zeros(e, n));
    ZerosOfZero(n);
  }

  lemma {:induction false} ZerosEntry(basis: seq<bv32>, images: seq<bv32>, i: bv32, n: nat)
    requires |basis| == |images| && forall k :: 0 <= k < |basis| ==> images[k] == Zeros(basis[k], n)
    ensures Zeros(Entry(basis, i), n) == Entry(images, i)
  {
    hide Xor, Pick, Half, PushBits;
    if basis == [] {
      ZerosOfZero(n);
    } else {
      ZerosEntry(basis[1..], images[1..], Half(i), n);
      ZerosPick(i, basis[0], n);
      ZerosLinear(Pick(i, basis[0]), Entry(basis[1..], Half(i)), n);
    }
  }

  /** U undoes exactly what a byte leaves in the fingerprint fifteen bytes later. */
  lemma UTable(x: bv32)
    requires x <= 0xff
    ensures U(x) == Zeros(x, 15)
  {
    hide Push15, Zeros, Entry, Spelled;
    UBasis0(); UBasis1(); UBasis2(); UBasis3(); UBasis4(); UBasis5(); UBasis6(); UBasis7();
    forall k | 0 <= k < 8
      ensures U_BASIS[k] == Zeros(POWERS[k], 15)
    {
      Push15IsZeros(POWERS[k]);
    }
    ZerosEntry(POWERS, U_BASIS, x, 15);
    EntryIsSpelled(POWERS, x);
    ByteSpelled(x);
  }

  // ---------------------------------------------------------------- fingerprints of byte strings

  function Wide(b: byte): bv32 { b as bv32 }

  lemma WideIsSmall(b: byte)
    ensures Wide(b) <= 0xff
  {
  }

  /** One more byte: ((val << 8) | b) ^ T[val >> RABIN_SHIFT]. */
  function Push(val: bv32, b: byte): bv32 { PushBits(val, Wide(b)) }

  /** The byte leaving the window is taken out first: val ^= U[b]. */
  function Drop(val: bv32, b: byte): bv32 { Xor(val, U(Wide(b))) }

  function Fingerprint(s: seq<byte>): bv32 {
    if s == [] then 0 else Push(Fingerprint(s[..|s| - 1]), s[|s| - 1])
  }

  lemma {:induction false} LeadingByte(x: byte, s: seq<byte>)
    ensures Fingerprint([x] + s) == Xor(Zeros(Wide(x), |s|), Fingerprint(s))
  {
    hide Xor, PushBits, Wide;
    WideIsSmall(x);
    if s == [] {
      assert [x] + s == [x] && [x][..0] == [];
      assert Fingerprint([x]) == Push(0, x);
      PushOntoZero(Wide(x));
      XorZero(Wide(x));
    } else {
      var init, last := s[..|s| - 1], s[|s| - 1];
      LeadingByte(x, init);
      WideIsSmall(last);
      assert ([x] + s)[..|s|] == [x] + init;
      XorComm(Zeros(Wide(x), |init|), Fingerprint(init));
      PushLinear(Fingerprint(init), Zeros(Wide(x), |init|), Wide(last));
      XorComm(Fingerprint(s), Zeros(Wide(x), |s|));
    }
  }

  /** Rolling the window one byte on gives the fingerprint of the new window. */
  lemma RollingIsExact(w: seq<byte>, b: byte)
    requires |w| == RABIN_WINDOW
    ensures Push(Drop(Fingerprint(w), w[0]), b) == Fingerprint(w[1..] + [b])
  {
    hide Xor, PushBits, Wide, U;
    var x, s := w[0], w[1..];
    assert w == [x] + s;
    LeadingByte(x, s);
    WideIsSmall(x);
    UTable(Wide(x));
    var z, f := Zeros(Wide(x), 15), Fingerprint(s);
    XorComm(z, f);
    XorAssoc(f, z, z);
    XorSelf(z);
    XorZero(f);
    assert (s + [b])[..15] == s;
  }

  /** Every fingerprint fits in 31 bits, so T is indexed within its 256 entries and the all-ones
      marker of the index builder never equals one. */
  lemma {:induction false} FingerprintFits(s: seq<byte>)
    ensures !High(Fingerprint(s)) && Top(Fingerprint(s)) <= 0xff && Fingerprint(s) != 0xffff_ffff
  {
    hide PushBits;
    SmallWords(0);
    if s != [] {
      WideIsSmall(s[|s| - 1]);
      PushStaysLow(Fingerprint(s[..|s| - 1]), Wide(s[|s| - 1]));
    }
    SmallWords(Fingerprint(s));
  }
}
