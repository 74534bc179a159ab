/** Printing integers with "%d" and reading them back with strtol. */
module Decimal {

  predicate IsDigit(c: char) {
    '0' <= c <= '9'
  }

  predicate IsSpace(c: char) {
    c in [' ', '\t', '\n', '\U{b}', '\U{c}', '\r']
  }

  function Digit(d: nat): (c: char)
    requires d < 10
    ensures IsDigit(c) && c as int - '0' as int == d
  {
    ('0' as int + d) as char
  }

  function DecNat(n: nat): (s: string)
    ensures s != "" && forall k :: 0 <= k < |s| ==> IsDigit(s[k])
  {
    (if n < 10 then "" else DecNat(n / 10)) + [Digit(n % 10)]
  }

  function Dec(n: int): string {
    if n < 0 then "-" + DecNat(-n) else DecNat(n)
  }

  function Value(s: string): int
    requires forall k :: 0 <= k < |s| ==> IsDigit(s[k])
  {
    if s == "" then 0
    else
      var c := s[|s| - 1];
      assert IsDigit(c);
      10 * Value(s[..|s| - 1]) + (c as int - '0' as int)
  }

  lemma {:induction false} ValueOfDec(n: nat)
    ensures Value(DecNat(n)) == n
  {
    var s := DecNat(n);
    if n >= 10 {
      ValueOfDec(n / 10);
      assert s[..|s| - 1] == DecNat(n / 10);
    } else {
      assert s[..|s| - 1] == "";
    }
  }

  function SpaceLen(s: string): (n: nat)
    ensures n <= |s|
  {
    if s == "" || !IsSpace(s[0]) then 0 else 1 + SpaceLen(s[1..])
  }

  function DigitLen(s: string): (n: nat)
    ensures n <= |s| && forall k :: 0 <= k < n ==> IsDigit(s[k])
  {
    if s == "" || !IsDigit(s[0]) then 0 else 1 + DigitLen(s[1..])
  }

  predicate Negative(s: string) {
    s != "" && s[0] == '-'
  }

  /** A sign and digits: the value and how many characters; none without digits. */
  function Signed(s: string): (r: (int, nat))
    ensures r.1 <= |s|
  {
    var t := if s != "" && (s[0] == '-' || s[0] == '+') then s[1..] else s;
    var d := DigitLen(t);
    if d == 0 then (0, 0)
    else (if Negative(s) then -Value(t[..d]) else Value(t[..d]), |s| - |t| + d)
  }

  /** The library's strtol, base 10: the value and how many characters it took, white space included. */
  function StrToL(s: string): (r: (int, nat))
    ensures r.1 <= |s|
  {
    var a := SpaceLen(s);
    var (val, n) := Signed(s[a..]);
    if n == 0 then (0, 0) else (val, a + n)
  }

  /** A number is followed by something else than a digit. */
  predicate Ends(tail: string) {
    tail == "" || !IsDigit(tail[0])
  }

  lemma {:induction false} DigitsEnd(digits: string, tail: string)
    requires (forall k :: 0 <= k < |digits| ==> IsDigit(digits[k])) && Ends(tail)
    ensures DigitLen(digits + tail) == |digits|
  {
    if digits == "" {
      assert digits + tail == tail;
    } else {
      assert (digits + tail)[1..] == digits[1..] + tail;
      DigitsEnd(digits[1..], tail);
    }
  }

  lemma ReadsNat(n: nat, tail: string)
    requires Ends(tail)
    ensures Signed(DecNat(n) + tail) == (n, |DecNat(n)|)
    ensures Signed("-" + DecNat(n) + tail) == (-(n as int), 1 + |DecNat(n)|)
  {
    hide DecNat, DigitLen, Value;
    var num := DecNat(n);
    DigitsEnd(num, tail);
    ValueOfDec(n);
    assert (num + tail)[..|num|] == num;
    assert IsDigit((num + tail)[0]);
    assert ("-" + num + tail)[1..] == num + tail;
  }

  lemma ReadsInt(n: int, tail: string)
    requires Ends(tail)
    ensures Signed(Dec(n) + tail) == (n, |Dec(n)|) && |Dec(n)| > 0
  {
    hide DecNat, Signed;
    ReadsNat(if n < 0 then -n else n, tail);
    assert n < 0 ==> Dec(n) + tail == "-" + DecNat(-n) + tail;
  }

  lemma NoSpace(n: int, tail: string)
    ensures SpaceLen(Dec(n) + tail) == 0 && SpaceLen(" " + Dec(n) + tail) == 1
  {
    hide DecNat;
    var d := Dec(n);
    assert d != "" && !IsSpace(d[0]);
    assert (d + tail)[0] == d[0];
    var t := " " + d + tail;
    assert t[0] == ' ' && t[1..] == d + tail;
  }

  /** Reading back a printed number, as it stands or after one space. */
  lemma ReadsBack(n: int, tail: string)
    requires Ends(tail)
    ensures StrToL(Dec(n) + tail) == (n, |Dec(n)|)
    ensures StrToL(" " + Dec(n) + tail) == (n, 1 + |Dec(n)|)
  {
    hide Dec, Signed, SpaceLen, IsSpace;
    var s := Dec(n) + tail;
    ReadsInt(n, tail);
    NoSpace(n, tail);
    assert s[0..] == s;
    assert (" " + Dec(n) + tail)[1..] == s;
  }
}
