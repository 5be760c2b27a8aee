/**
  Bytes, the ASCII characters the bencoding grammar uses, and the decimal
  rendering of integers: the length prefixes `<len>:` and the integer
  bodies `i<n>e` are both written with `Digits`, and read back with
  `ParseDigits` (the `(int) substr(...)` of the decoders).
*/
module Decimal {

  type byte = b: int | 0 <= b < 256

  const ZERO: byte := 48   // '0'
  const NINE: byte := 57   // '9'
  const COLON: byte := 58  // ':'
  const MINUS: byte := 45  // '-'
  const CHAR_D: byte := 100  // 'd'
  const CHAR_E: byte := 101  // 'e'
  const CHAR_I: byte := 105  // 'i'
  const CHAR_L: byte := 108  // 'l'

  predicate IsDigit(c: byte) {
    ZERO <= c <= NINE
  }

  predicate AllDigits(s: seq<byte>) {
    forall k :: 0 <= k < |s| ==> IsDigit(s[k])
  }

  /** A digit run as the strict decoder accepts it: not empty, and no leading zero unless it is `0` itself. */
  predicate CanonicalDigits(s: seq<byte>) {
    |s| >= 1 && AllDigits(s) && (|s| > 1 ==> s[0] != ZERO)
  }

  /** Decimal rendering of a natural number, most significant digit first. */
  function Digits(n: nat): (r: seq<byte>)
    decreases n
  {
    if n < 10 then [ZERO + n] else Digits(n / 10) + [ZERO + n % 10]
  }

  /** Value of a run of decimal digits. */
  function ParseDigits(s: seq<byte>): nat
    requires AllDigits(s)
  {
    if s == [] then 0 else 10 * ParseDigits(s[..|s| - 1]) + (s[|s| - 1] - ZERO)
  }

  /** Decimal rendering of a signed integer, as `sprintf('%d')` writes it. */
  function IntText(n: int): seq<byte> {
    if n < 0 then [MINUS] + Digits(-n) else Digits(n)
  }

  lemma {:induction false} DigitsCanonical(n: nat)
    ensures CanonicalDigits(Digits(n))
    ensures (n == 0) == (Digits(n) == [ZERO])
    decreases n
  {
    if n >= 10 {
      DigitsCanonical(n / 10);
      var r := Digits(n);
      assert r == Digits(n / 10) + [ZERO + n % 10];
      assert r[0] == Digits(n / 10)[0];
    }
  }

  lemma {:induction false} ParseDigitsOfDigits(n: nat)
    ensures AllDigits(Digits(n)) && ParseDigits(Digits(n)) == n
    decreases n
  {
    DigitsCanonical(n);
    if n >= 10 {
      var r := Digits(n);
      ParseDigitsOfDigits(n / 10);
      assert r[..|r| - 1] == Digits(n / 10);
    }
  }

  lemma {:induction false} ParseDigitsPositive(s: seq<byte>)
    requires AllDigits(s) && |s| >= 1 && s[0] != ZERO
    ensures ParseDigits(s) >= 1
    decreases |s|
  {
    if |s| > 1 {
      ParseDigitsPositive(s[..|s| - 1]);
    }
  }

  lemma {:induction false} DigitsOfParseDigits(s: seq<byte>)
    requires CanonicalDigits(s)
    ensures Digits(ParseDigits(s)) == s
    decreases |s|
  {
    if |s| > 1 {
      var init := s[..|s| - 1];
      ParseDigitsPositive(init);
      DigitsOfParseDigits(init);
      var n := ParseDigits(s);
      assert n / 10 == ParseDigits(init) && n % 10 == s[|s| - 1] - ZERO;
      assert s == init + [s[|s| - 1]];
    }
  }

  lemma IntTextShape(n: int)
    ensures |IntText(n)| >= 1
    ensures n < 0 ==> IntText(n)[0] == MINUS && CanonicalDigits(IntText(n)[1..]) && IntText(n)[1] != ZERO
    ensures n >= 0 ==> CanonicalDigits(IntText(n))
  {
    if n < 0 {
      DigitsCanonical(-n);
      assert IntText(n)[1..] == Digits(-n);
    } else {
      DigitsCanonical(n);
    }
  }
}
