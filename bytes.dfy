/** Bytes, fixed-width integers and base-10 integer text, as the logger uses them.
    A Go `string` and a `[]byte` hold the same bytes; the model keeps only the bytes. */
module Bytes {

  newtype byte = x: int | 0 <= x < 256

  type Bytes = seq<byte>

  /** Go's `int64`; every signed integer type the logger accepts widens into it without loss. */
  newtype int64 = x: int | -0x8000_0000_0000_0000 <= x < 0x8000_0000_0000_0000

  /** Go's `int8`, the representation of a log level. */
  newtype int8 = x: int | -128 <= x < 128

  const NEWLINE: byte := 10
  const SPACE: byte := 32
  const PERCENT: byte := 37
  const MINUS: byte := 45
  const ZERO: byte := 48
  const LOWER_V: byte := 118

  /** The bytes of an ASCII string constant. */
  function Ascii(s: string): (r: Bytes)
    ensures |r| == |s|
  {
    seq(|s|, k requires 0 <= k < |s| => (s[k] as int % 256) as byte)
  }

  predicate NoNewline(s: Bytes) {
    forall k :: 0 <= k < |s| ==> s[k] != NEWLINE
  }

  predicate IsDigit(b: byte) {
    ZERO <= b <= ZERO + 9
  }

  predicate AllDigits(s: Bytes) {
    forall k :: 0 <= k < |s| ==> IsDigit(s[k])
  }

  /** Base-10 digits of n, most significant first, without leading zeros. */
  function Digits(n: nat): (r: Bytes)
    ensures |r| >= 1 && AllDigits(r)
    ensures r[0] == ZERO <==> n == 0
    decreases n
  {
    if n < 10 then [ZERO + n as byte] else Digits(n / 10) + [ZERO + (n % 10) as byte]
  }

  /** The number a run of digits denotes (the reference reading of base-10 text). */
  function DigitsValue(s: Bytes): nat
    requires AllDigits(s)
  {
    if s == [] then 0 else DigitsValue(s[..|s| - 1]) * 10 + (s[|s| - 1] - ZERO) as int
  }

  /** Base-10 text as strconv.FormatInt writes it: an optional '-', then at least one digit,
      no leading zero, and no "-0". */
  predicate IsCanonicalDecimal(s: Bytes) {
    var m := if |s| > 0 && s[0] == MINUS then s[1..] else s;
    |m| >= 1 && AllDigits(m) && (m[0] == ZERO ==> m == s && |s| == 1)
  }

  /** The integer that canonical base-10 text denotes. */
  function DecimalValue(s: Bytes): int
    requires IsCanonicalDecimal(s)
  {
    if s[0] == MINUS then -(DigitsValue(s[1..]) as int) else DigitsValue(s)
  }

  /** strconv.FormatInt(v, 10). */
  function FormatInt(v: int64): (r: Bytes)
    ensures IsCanonicalDecimal(r)
    ensures r[0] == MINUS <==> v < 0
  {
    if v < 0 then [MINUS] + Digits(-(v as int)) else Digits(v as int)
  }

  lemma {:induction false} DigitsRoundTrip(n: nat)
    ensures DigitsValue(Digits(n)) == n
    decreases n
  {
    if n >= 10 {
      DigitsRoundTrip(n / 10);
      var r := Digits(n);
      assert r[..|r| - 1] == Digits(n / 10);
    }
  }

  /** Reading the text back gives the number that was formatted. */
  lemma FormatIntRoundTrip(v: int64)
    ensures DecimalValue(FormatInt(v)) == v as int
  {
    if v < 0 {
      DigitsRoundTrip(-(v as int));
      assert FormatInt(v)[1..] == Digits(-(v as int));
    } else {
      DigitsRoundTrip(v as int);
    }
  }

  lemma {:induction false} DigitsValuePositive(s: Bytes)
    requires |s| >= 1 && AllDigits(s) && s[0] != ZERO
    ensures DigitsValue(s) >= 1
    decreases |s|
  {
    if |s| > 1 {
      DigitsValuePositive(s[..|s| - 1]);
    }
  }

  lemma {:induction false} DigitsOfValue(s: Bytes)
    requires |s| >= 1 && AllDigits(s) && (s[0] == ZERO ==> |s| == 1)
    ensures Digits(DigitsValue(s)) == s
    decreases |s|
  {
    if |s| > 1 {
      var p := s[..|s| - 1];
      DigitsOfValue(p);
      DigitsValuePositive(p);
      var d := (s[|s| - 1] - ZERO) as int;
      var n := DigitsValue(s);
      assert n == DigitsValue(p) * 10 + d;
      assert n / 10 == DigitsValue(p) && n % 10 == d;
      assert s == p + [s[|s| - 1]];
    }
  }

  /** Canonical text in the int64 range is exactly what FormatInt writes for its value. */
  lemma FormatIntOfDecimal(s: Bytes)
    requires IsCanonicalDecimal(s)
    requires -0x8000_0000_0000_0000 <= DecimalValue(s) < 0x8000_0000_0000_0000
    ensures FormatInt(DecimalValue(s) as int64) == s
  {
    if s[0] == MINUS {
      DigitsOfValue(s[1..]);
      assert s == [MINUS] + s[1..];
    } else {
      DigitsOfValue(s);
    }
  }
}
