/**
 * Decimal text as the collector reads and writes it: C's `atoi` and
 * `std::to_string` of an unsigned value. `atoi` is modelled without the
 * overflow the C library leaves undefined.
 */
module Decimal {

  /** The characters `isspace` accepts in the C locale: space, and tab through carriage return. */
  predicate IsSpace(c: char) {
    c == ' ' || 9 <= c as int <= 13
  }

  predicate IsDigit(c: char) {
    '0' <= c <= '9'
  }

  predicate AllDigits(s: string) {
    forall i :: 0 <= i < |s| ==> IsDigit(s[i])
  }

  /** The first position at or after `i` that is not white space. */
  function SkipSpaces(s: string, i: nat): (j: nat)
    requires i <= |s|
    ensures i <= j <= |s|
    ensures forall k :: i <= k < j ==> IsSpace(s[k])
    ensures j == |s| || !IsSpace(s[j])
    decreases |s| - i
  {
    if i < |s| && IsSpace(s[i]) then SkipSpaces(s, i + 1) else i
  }

  /** The end of the run of digits starting at `i`. */
  function DigitsEnd(s: string, i: nat): (j: nat)
    requires i <= |s|
    ensures i <= j <= |s|
    ensures AllDigits(s[i..j])
    ensures j == |s| || !IsDigit(s[j])
    decreases |s| - i
  {
    if i < |s| && IsDigit(s[i]) then
      var j := DigitsEnd(s, i + 1);
      assert s[i..j] == [s[i]] + s[i + 1..j];
      j
    else i
  }

  /** The value of a string of decimal digits, most significant first. */
  function DigitsValue(s: string): nat
    requires AllDigits(s)
  {
    if |s| == 0 then 0
    else DigitsValue(s[..|s| - 1]) * 10 + (s[|s| - 1] as int - '0' as int)
  }

  /**
   * `atoi`: leading white space, an optional sign, then as many digits as
   * follow; anything after them is ignored, and no digits at all read as 0.
   */
  function Atoi(s: string): (v: int)
    ensures (|s| == 0 || (!IsSpace(s[0]) && s[0] != '-' && s[0] != '+' && !IsDigit(s[0]))) ==> v == 0
  {
    var i := SkipSpaces(s, 0);
    var signed := i < |s| && (s[i] == '-' || s[i] == '+');
    var j := if signed then i + 1 else i;
    var k := DigitsEnd(s, j);
    var magnitude: int := DigitsValue(s[j..k]);
    if signed && s[i] == '-' then -magnitude else magnitude
  }

  /** The digit character of a value below ten. */
  function DigitChar(d: nat): (c: char)
    requires d < 10
    ensures IsDigit(c) && c as int - '0' as int == d
  {
    ('0' as int + d) as char
  }

  /** `std::to_string` of an unsigned value: its decimal digits, without leading zeros. */
  function NatToString(n: nat): (s: string)
    ensures |s| > 0 && AllDigits(s)
    ensures |s| > 1 ==> s[0] != '0'
  {
    if n < 10 then [DigitChar(n)]
    else NatToString(n / 10) + [DigitChar(n % 10)]
  }

  /** The digits written for `n` have the value `n`. */
  lemma {:induction false} NatToStringValue(n: nat)
    ensures DigitsValue(NatToString(n)) == n
  {
    if n >= 10 {
      NatToStringValue(n / 10);
      var s := NatToString(n);
      assert s[..|s| - 1] == NatToString(n / 10);
    }
  }

  /** A run of digits from `i` that stops at a non-digit or the end ends exactly there. */
  lemma {:induction false} DigitsEndAt(t: string, i: nat, e: nat)
    requires i <= e <= |t|
    requires forall k :: i <= k < e ==> IsDigit(t[k])
    requires e == |t| || !IsDigit(t[e])
    ensures DigitsEnd(t, i) == e
    decreases e - i
  {
    if i < e {
      DigitsEndAt(t, i + 1, e);
    }
  }

  /** The digit run of `s + rest` covers exactly `s` when `rest` does not start with a digit. */
  lemma DigitsEndOfDigits(s: string, rest: string)
    requires AllDigits(s)
    requires |rest| == 0 || !IsDigit(rest[0])
    ensures DigitsEnd(s + rest, 0) == |s|
  {
    var t := s + rest;
    assert forall k :: 0 <= k < |s| ==> t[k] == s[k];
    assert |s| == |t| || t[|s|] == rest[0];
    DigitsEndAt(t, 0, |s|);
  }

  /**
   * Reading back what `to_string` wrote gives the number, whatever non-digit
   * text follows it.
   */
  lemma AtoiNatToString(n: nat, rest: string)
    requires |rest| == 0 || !IsDigit(rest[0])
    ensures Atoi(NatToString(n) + rest) == n
  {
    var s := NatToString(n);
    var t := s + rest;
    assert t[0] == s[0];
    assert SkipSpaces(t, 0) == 0;
    DigitsEndOfDigits(s, rest);
    assert t[0..|s|] == s;
    NatToStringValue(n);
  }

  /** `to_string` never writes a separator: no '.', ':' or '_' appears in its output. */
  lemma NatToStringNoSeparators(n: nat)
    ensures forall i :: 0 <= i < |NatToString(n)| ==> NatToString(n)[i] !in ".:_"
  {
  }
}
