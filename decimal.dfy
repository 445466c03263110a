/**
 * Decimal text as the Go standard library writes and reads it: `strconv.Itoa`
 * (also what `fmt.Sprint` and `%d` print for an integer) and `strconv.Atoi`
 * on a 64-bit platform.
 */
module Decimal {
  import opened Common

  const ZERO: byte := '0' as byte
  const MINUS: byte := '-' as byte
  const PLUS: byte := '+' as byte

  predicate IsDigit(b: byte) {
    ZERO <= b <= ZERO + 9
  }

  /** The digits of `n` in base ten, most significant first, without leading zeros. */
  function NatDigits(n: nat): (r: Bytes)
    ensures |r| >= 1 && IsDigit(r[0])
    ensures r[0] == ZERO ==> n == 0
    ensures n < 10 <==> |r| == 1
  {
    if n < 10 then [ZERO + n as byte] else NatDigits(n / 10) + [ZERO + (n % 10) as byte]
  }

  /**
   * The number a run of decimal digits denotes, leading zeros allowed; None
   * when the run is empty or holds anything but a digit.
   */
  function DigitsValue(s: Bytes): (r: Option<nat>)
    ensures r.Some? ==> |s| > 0
  {
    if s == [] || !IsDigit(s[|s| - 1]) then None
    else if |s| == 1 then Some((s[0] - ZERO) as nat)
    else
      match DigitsValue(s[..|s| - 1])
      case None => None
      case Some(v) => Some(10 * v + (s[|s| - 1] - ZERO) as nat)
  }

  /** `strconv.Itoa`: an optional '-' followed by the minimal digits of the magnitude. */
  function Itoa(n: int): (r: Bytes)
    ensures |r| >= 1
    ensures n >= 0 ==> IsDigit(r[0])
    ensures n < 0 ==> r[0] == MINUS
  {
    if n < 0 then [MINUS] + NatDigits(-n) else NatDigits(n)
  }

  /**
   * `strconv.Atoi` with a 64-bit `int`: an optional sign ('+' or '-') and at
   * least one ASCII digit, nothing else, and a value that fits in 64 bits.
   * Leading zeros and "-0" are accepted.
   */
  function Atoi(s: Bytes): Option<int64> {
    var digits := if |s| > 0 && (s[0] == MINUS || s[0] == PLUS) then s[1..] else s;
    match DigitsValue(digits)
    case None => None
    case Some(magnitude) =>
      var n: int := if s[0] == MINUS then -(magnitude as int) else magnitude;
      if MIN_INT64 <= n <= MAX_INT64 then Some(n as int64) else None
  }

  /** Text `Itoa` would produce: no '+', no leading zero, no "-0". */
  predicate Canonical(s: Bytes) {
    if |s| > 0 && s[0] == MINUS then
      |s| > 1 && s[1] != ZERO && DigitsValue(s[1..]).Some?
    else
      DigitsValue(s).Some? && (s[0] == ZERO ==> |s| == 1)
  }

  /** Every byte `NatDigits` writes is a digit. */
  lemma {:induction false} NatDigitsAllDigits(n: nat)
    ensures forall i :: 0 <= i < |NatDigits(n)| ==> IsDigit(NatDigits(n)[i])
  {
    if n >= 10 {
      NatDigitsAllDigits(n / 10);
    }
  }

  /** `Itoa` writes only digits and '-'. */
  lemma ItoaText(n: int)
    ensures forall i :: 0 <= i < |Itoa(n)| ==> IsDigit(Itoa(n)[i]) || Itoa(n)[i] == MINUS
  {
    if n < 0 {
      NatDigitsAllDigits(-n);
    } else {
      NatDigitsAllDigits(n);
    }
  }

  /** The digits of `n` denote `n`. */
  lemma {:induction false} DigitsValueOfNatDigits(n: nat)
    ensures DigitsValue(NatDigits(n)) == Some(n)
  {
    if n >= 10 {
      var r := NatDigits(n);
      assert r[..|r| - 1] == NatDigits(n / 10);
      DigitsValueOfNatDigits(n / 10);
    }
  }

  /** Digits without a leading zero are exactly the digits of the number they denote. */
  lemma {:induction false} NatDigitsOfDigitsValue(s: Bytes)
    requires DigitsValue(s).Some? && (s[0] == ZERO ==> |s| == 1)
    ensures NatDigits(DigitsValue(s).value) == s
  {
    if |s| > 1 {
      var p := s[..|s| - 1];
      NatDigitsOfDigitsValue(p);
      LeadingDigitBound(p);
      assert s == p + [s[|s| - 1]];
    }
  }

  /** A digit run that does not start with '0' denotes at least 1. */
  lemma {:induction false} LeadingDigitBound(s: Bytes)
    requires DigitsValue(s).Some? && s[0] != ZERO
    ensures DigitsValue(s).value >= 1
  {
    if |s| > 1 {
      LeadingDigitBound(s[..|s| - 1]);
    }
  }

  /** `Atoi` reads back every 64-bit integer `Itoa` writes. */
  lemma AtoiItoa(n: int64)
    ensures Atoi(Itoa(n as int)) == Some(n)
  {
    var r := Itoa(n as int);
    if n < 0 {
      assert r[1..] == NatDigits(-(n as int));
      DigitsValueOfNatDigits(-(n as int));
    } else {
      DigitsValueOfNatDigits(n as int);
    }
  }

  /** Everything `Itoa` writes is canonical. */
  lemma ItoaCanonical(n: int)
    ensures Canonical(Itoa(n))
  {
    if n < 0 {
      var d := NatDigits(-n);
      assert Itoa(n) == [MINUS] + d;
      NegativeCanonical(d, -n);
    } else {
      NatDigitsCanonical(n);
    }
  }

  /** The digits of a natural number are canonical. */
  lemma NatDigitsCanonical(n: nat)
    ensures Canonical(NatDigits(n))
  {
    var d := NatDigits(n);
    DigitsValueOfNatDigits(n);
    assert d[0] != MINUS;
    assert d[0] == ZERO ==> |d| == 1;
  }

  /** A '-' before the digits of a positive number is canonical. */
  lemma NegativeCanonical(d: Bytes, m: nat)
    requires m > 0 && d == NatDigits(m)
    ensures Canonical([MINUS] + d)
  {
    var s := [MINUS] + d;
    DigitsValueOfNatDigits(m);
    assert s[1..] == d;
    assert s[1] == d[0] != ZERO;
  }

  /** On canonical text `Atoi` is undone by `Itoa`: the text is exactly what `Itoa` prints. */
  lemma ItoaAtoi(s: Bytes)
    requires Canonical(s) && Atoi(s).Some?
    ensures Itoa(Atoi(s).value as int) == s
  {
    if s[0] == MINUS {
      NatDigitsOfDigitsValue(s[1..]);
      LeadingDigitBound(s[1..]);
      assert s == [MINUS] + s[1..];
    } else {
      NatDigitsOfDigitsValue(s);
    }
  }
}
