/** Decimal numerals in text: canonical writing, reading, and Rust's unsigned `str::parse`. */
module Numerals {
  import opened Wrappers
  import opened Utf8

  const ZERO: byte := 0x30
  const NINE: byte := 0x39
  const PLUS: byte := 0x2B

  predicate IsDigit(b: byte) {
    ZERO <= b <= NINE
  }

  predicate AllDigits(s: Bytes) {
    forall k :: 0 <= k < |s| ==> IsDigit(s[k])
  }

  function DigitOf(n: nat): byte
    requires n < 10
  {
    (0x30 + n) as byte
  }

  /** The decimal numeral of `n`, without leading zeros. */
  function Decimal(n: nat): (s: Bytes)
    ensures AllDigits(s) && |s| > 0
  {
    if n < 10 then [DigitOf(n)] else Decimal(n / 10) + [DigitOf(n % 10)]
  }

  /** The number a string of digits denotes; leading zeros are allowed. */
  function NumberOf(s: Bytes): nat
    requires AllDigits(s)
  {
    if s == [] then 0 else 10 * NumberOf(s[..|s| - 1]) + (s[|s| - 1] - ZERO) as nat
  }

  predicate Canonical(s: Bytes) {
    AllDigits(s) && s != [] && (|s| > 1 ==> s[0] != ZERO)
  }

  lemma {:induction false} DecimalRoundTrip(n: nat)
    ensures NumberOf(Decimal(n)) == n
    ensures Canonical(Decimal(n)) && (Decimal(n)[0] == ZERO ==> n == 0)
  {
    var s := Decimal(n);
    if n >= 10 {
      DecimalRoundTrip(n / 10);
      assert s[..|s| - 1] == Decimal(n / 10);
    } else {
      assert s[..0] == [];
    }
  }

  /** A canonical numeral is the one `Decimal` writes for its number. */
  lemma {:induction false} NumeralRoundTrip(s: Bytes)
    requires Canonical(s)
    ensures Decimal(NumberOf(s)) == s
    ensures |s| > 1 ==> NumberOf(s) >= 10
    ensures s[0] != ZERO ==> NumberOf(s) >= 1
    decreases |s|
  {
    hide Decimal, NumberOf;
    if |s| > 1 {
      var front := s[..|s| - 1];
      NumeralRoundTrip(front);
      LastDigit(s);
      assert front[0] == s[0];
      assert s == front + [s[|s| - 1]];
    } else {
      OneDigit(s);
    }
  }

  lemma LastDigit(s: Bytes)
    requires AllDigits(s) && |s| > 1 && NumberOf(s[..|s| - 1]) >= 1
    ensures NumberOf(s) >= 10
    ensures Decimal(NumberOf(s)) == Decimal(NumberOf(s[..|s| - 1])) + [s[|s| - 1]]
  {
    hide Decimal, NumberOf;
    var n, d := NumberOf(s[..|s| - 1]), (s[|s| - 1] - ZERO) as nat;
    NumberOfLast(s);
    OneMoreDigit(n, d);
  }

  lemma NumberOfLast(s: Bytes)
    requires AllDigits(s) && s != []
    ensures NumberOf(s) == 10 * NumberOf(s[..|s| - 1]) + (s[|s| - 1] - ZERO) as nat
  {
  }

  lemma OneMoreDigit(n: nat, d: nat)
    requires n >= 1 && d < 10
    ensures Decimal(10 * n + d) == Decimal(n) + [DigitOf(d)]
  {
    hide Decimal;
    var m := 10 * n + d;
    assert m / 10 == n && m % 10 == d;
    DecimalOf(m);
  }

  lemma DecimalOf(n: nat)
    requires n >= 10
    ensures Decimal(n) == Decimal(n / 10) + [DigitOf(n % 10)]
  {
  }

  lemma OneDigit(s: Bytes)
    requires AllDigits(s) && |s| == 1
    ensures NumberOf(s) == (s[0] - ZERO) as nat && Decimal(NumberOf(s)) == s
  {
    assert s[..0] == [];
  }

  function Pow10(k: nat): (p: nat)
    ensures p >= 1
  {
    if k == 0 then 1 else 10 * Pow10(k - 1)
  }

  /** A number below 10^k has at most k digits, and conversely. */
  lemma {:induction false} DecimalLength(n: nat, k: nat)
    requires k > 0
    ensures |Decimal(n)| <= k <==> n < Pow10(k)
    decreases k
  {
    if k == 1 {
      assert Pow10(1) == 10 * Pow10(0);
      if n >= 10 {
        assert |Decimal(n)| == |Decimal(n / 10)| + 1;
      }
    } else if n >= 10 {
      DecimalLength(n / 10, k - 1);
    } else {
      assert Pow10(k) == 10 * Pow10(k - 1);
    }
  }

  /** A smaller number does not have a longer numeral. */
  lemma {:induction false} DecimalNotShorter(m: nat, n: nat)
    requires m <= n
    ensures |Decimal(m)| <= |Decimal(n)|
    decreases n
  {
    if m >= 10 {
      DecimalNotShorter(m / 10, n / 10);
    }
  }

  /** `str::parse` for an unsigned type with greatest value `max`: one leading plus sign, then
      digits, and an overflow is an error. */
  function ParseUnsigned(s: Bytes, max: nat): Option<nat> {
    var digits := if |s| > 1 && s[0] == PLUS then s[1..] else s;
    if digits == [] || !AllDigits(digits) || NumberOf(digits) > max then None
    else Some(NumberOf(digits))
  }

  function Zeros(n: nat): (s: Bytes)
    ensures |s| == n && AllDigits(s)
  {
    seq(n, _ => ZERO)
  }

  /** A numeral of `n` as it may be written: a plus sign, zeros, and the decimal digits. */
  predicate Denotes(s: Bytes, n: nat) {
    exists zeros :: 0 <= zeros <= |s| && IsNumeral(s, zeros, n)
  }

  predicate IsNumeral(s: Bytes, zeros: nat, n: nat) {
    s == Zeros(zeros) + Decimal(n) || s == [0x2B] + Zeros(zeros) + Decimal(n)
  }

  lemma {:induction false} LeadingZero(s: Bytes)
    requires AllDigits(s)
    ensures AllDigits([ZERO] + s) && NumberOf([ZERO] + s) == NumberOf(s)
    decreases |s|
  {
    var longer := [ZERO] + s;
    if s == [] {
      assert longer[..0] == [];
    } else {
      LeadingZero(s[..|s| - 1]);
      assert longer[..|longer| - 1] == [ZERO] + s[..|s| - 1];
    }
  }

  lemma {:induction false} LeadingZeros(zeros: nat, s: Bytes)
    requires AllDigits(s)
    ensures AllDigits(Zeros(zeros) + s) && NumberOf(Zeros(zeros) + s) == NumberOf(s)
    decreases zeros
  {
    if zeros == 0 {
      assert Zeros(0) + s == s;
    } else {
      LeadingZeros(zeros - 1, s);
      LeadingZero(Zeros(zeros - 1) + s);
      assert Zeros(zeros) + s == [ZERO] + (Zeros(zeros - 1) + s);
    }
  }

  /** Digits are zeros and the decimal numeral of their number. */
  lemma {:induction false} DigitsAreNumeral(s: Bytes) returns (zeros: nat)
    requires AllDigits(s) && s != []
    ensures s == Zeros(zeros) + Decimal(NumberOf(s))
    decreases |s|
  {
    if |s| > 1 && s[0] == ZERO {
      var fewer := DigitsAreNumeral(s[1..]);
      zeros := fewer + 1;
      LeadingZero(s[1..]);
      assert s == [ZERO] + s[1..];
      assert Zeros(zeros) + Decimal(NumberOf(s))
          == [ZERO] + (Zeros(fewer) + Decimal(NumberOf(s[1..])));
    } else {
      zeros := 0;
      NumeralRoundTrip(s);
    }
  }

  /** A string is parsed as a number exactly when it is a numeral of it, and the number is in range. */
  lemma ParseUnsignedIff(s: Bytes, max: nat, n: nat)
    ensures ParseUnsigned(s, max) == Some(n) <==> Denotes(s, n) && n <= max
  {
    hide ParseUnsigned, IsNumeral;
    if ParseUnsigned(s, max) == Some(n) {
      ParsedIsNumeral(s, max, n);
    }
    if zeros :| 0 <= zeros <= |s| && IsNumeral(s, zeros, n) {
      NumeralIsParsed(s, zeros, max, n);
    }
  }

  lemma ParsedIsNumeral(s: Bytes, max: nat, n: nat)
    requires ParseUnsigned(s, max) == Some(n)
    ensures Denotes(s, n) && n <= max
  {
    hide NumberOf, Decimal;
    var digits := if |s| > 1 && s[0] == PLUS then s[1..] else s;
    var zeros := DigitsAreNumeral(digits);
    WithPlus(s, zeros, n);
    assert IsNumeral(s, zeros, n);
  }

  lemma WithPlus(s: Bytes, zeros: nat, n: nat)
    ensures |s| > 1 && s[0] == PLUS && s[1..] == Zeros(zeros) + Decimal(n) ==>
              s == [0x2B] + Zeros(zeros) + Decimal(n)
    ensures |Zeros(zeros)| == zeros
  {
    hide Decimal;
    if |s| > 1 && s[0] == PLUS && s[1..] == Zeros(zeros) + Decimal(n) {
      assert s == [s[0]] + s[1..];
      assert [0x2B] + (Zeros(zeros) + Decimal(n)) == [0x2B] + Zeros(zeros) + Decimal(n);
    }
  }

  lemma NumeralIsParsed(s: Bytes, zeros: nat, max: nat, n: nat)
    requires IsNumeral(s, zeros, n)
    ensures ParseUnsigned(s, max) == if n <= max then Some(n) else None
  {
    hide NumberOf, Decimal;
    var digits := Zeros(zeros) + Decimal(n);
    LeadingZeros(zeros, Decimal(n));
    DecimalRoundTrip(n);
    assert digits[0] != PLUS;
    if s != digits {
      assert s == [0x2B] + digits && s[1..] == digits;
    }
  }
}
