/**
 * Canonical decimal text of 64-bit integers: the contract rdb.c relies on when it calls ll2string and
 * string2ll. util.c, where both live, is not part of this model.
 */
module Decimal {
  import opened Base

  const ZERO: byte := 48
  const MINUS: byte := 45

  predicate IsDigit(b: byte) {
    ZERO <= b <= ZERO + 9
  }

  predicate AllDigits(s: Bytes) {
    forall i :: 0 <= i < |s| ==> IsDigit(s[i])
  }

  function Digits(n: nat): (s: Bytes)
    ensures s != [] && AllDigits(s)
  {
    if n < 10 then [ZERO + n] else Digits(n / 10) + [ZERO + n % 10]
  }

  function Ll2String(v: int): (s: Bytes) {
    if v < 0 then [MINUS] + Digits(-v) else Digits(v)
  }

  /** The number a run of digits denotes, most significant digit first. */
  function DigitsValue(s: Bytes): (n: nat)
    requires AllDigits(s)
  {
    if s == [] then 0 else
      assert IsDigit(s[|s| - 1]);
      DigitsValue(s[..|s| - 1]) * 10 + (s[|s| - 1] - ZERO)
  }

  /** Digits without a leading zero, or exactly "0". */
  predicate CanonicalDigits(s: Bytes) {
    s != [] && AllDigits(s) && (s[0] == ZERO ==> |s| == 1)
  }

  /** Accepts exactly one spelling per number: no sign on zero, no leading zeros, no blanks, in range. */
  function String2ll(s: Bytes): (r: Option<int>) {
    if CanonicalDigits(s) then
      if Int64(DigitsValue(s)) then Some(DigitsValue(s)) else None
    else if |s| > 1 && s[0] == MINUS && CanonicalDigits(s[1..]) && s[1] != ZERO then
      if Int64(0 - DigitsValue(s[1..])) then Some(0 - DigitsValue(s[1..])) else None
    else
      None
  }

  lemma {:induction false} DigitsCanonical(n: nat)
    ensures CanonicalDigits(Digits(n)) && DigitsValue(Digits(n)) == n
    ensures n > 0 ==> Digits(n)[0] != ZERO
  {
    if n >= 10 {
      DigitsCanonical(n / 10);
      var s := Digits(n);
      assert s[..|s| - 1] == Digits(n / 10);
      assert s[0] == Digits(n / 10)[0];
    }
  }

  lemma {:induction false} DigitsOfValue(s: Bytes)
    requires CanonicalDigits(s)
    ensures Digits(DigitsValue(s)) == s
    ensures s[0] != ZERO ==> DigitsValue(s) > 0
  {
    var init, last := s[..|s| - 1], s[|s| - 1];
    if |s| == 1 {
      assert init == [];
      assert DigitsValue(s) == last - ZERO;
    } else {
      assert s[0] == init[0] && s[0] != ZERO;
      DigitsOfValue(init);
      var n := DigitsValue(s);
      assert n / 10 == DigitsValue(init) && n % 10 == last - ZERO;
      assert s == init + [last];
    }
  }

  lemma String2llReadsCanonical(v: int)
    requires Int64(v)
    ensures String2ll(Ll2String(v)) == Some(v)
  {
    var s := Ll2String(v);
    if v < 0 {
      DigitsCanonical(-v);
      assert s[1..] == Digits(-v);
      assert s[0] == MINUS && !AllDigits(s);
    } else {
      DigitsCanonical(v);
    }
  }

  lemma String2llAcceptsOnlyCanonical(s: Bytes, v: int)
    requires String2ll(s) == Some(v)
    ensures Int64(v) && s == Ll2String(v)
  {
    hide Digits, DigitsValue, AllDigits;
    if CanonicalDigits(s) {
      DigitsOfValue(s);
    } else {
      DigitsOfValue(s[1..]);
      assert s == [MINUS] + s[1..];
    }
  }

  /** A string parses to v exactly when it is v's canonical text. */
  lemma String2llInvertsLl2String(s: Bytes, v: int)
    ensures String2ll(s) == Some(v) <==> Int64(v) && s == Ll2String(v)
  {
    if Int64(v) {
      String2llReadsCanonical(v);
    }
    if String2ll(s) == Some(v) {
      String2llAcceptsOnlyCanonical(s, v);
    }
  }

  /** Two integers with the same text are the same integer. */
  lemma Ll2StringInjective(v: int, w: int)
    requires Int64(v) && Int64(w) && Ll2String(v) == Ll2String(w)
    ensures v == w
  {
    String2llInvertsLl2String(Ll2String(v), v);
    String2llInvertsLl2String(Ll2String(v), w);
  }
}
