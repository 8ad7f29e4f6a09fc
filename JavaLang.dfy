/** The few pieces of Java semantics the duplicate finder leans on:
    optional values, unchecked array-index exceptions, 32-bit `int`
    arithmetic and the decimal rendering used by string concatenation. */
module JavaLang {

  datatype Option<+T> = None | Some(value: T)

  /** The result of a Java expression that either yields a value or throws
      an unchecked ArrayIndexOutOfBoundsException (indexing an empty array
      returned by String.split). */
  datatype Outcome<+T> = Normal(value: T) | OutOfBounds

  const IntMin: int := -0x8000_0000
  const IntMax: int := 0x7fff_ffff

  /** Java's 32-bit signed `int`. */
  type int32 = x: int | -0x8000_0000 <= x <= 0x7fff_ffff

  /** `x++` on a Java `int`: two's-complement wrap-around at the top. */
  function Increment(x: int32): int32
  {
    if x == IntMax then IntMin else x + 1
  }

  function DigitChar(d: nat): char
    requires d < 10
  {
    "0123456789"[d]
  }

  /** The decimal text Java produces for a non-negative int in `"" + n`. */
  function NatToDecimal(n: nat): (s: string)
    ensures |s| > 0
    ensures forall i :: 0 <= i < |s| ==> '0' <= s[i] <= '9'
    ensures |s| > 1 ==> s[0] != '0'
  {
    if n < 10 then [DigitChar(n)] else NatToDecimal(n / 10) + [DigitChar(n % 10)]
  }

  /** The decimal text Java produces for any int: a minus sign, then the digits. */
  function IntToDecimal(n: int): string
  {
    if n < 0 then "-" + NatToDecimal(-n) else NatToDecimal(n)
  }

  /** The value of a string of decimal digits (the inverse reading). */
  function DecimalValue(s: string): nat
    requires forall i :: 0 <= i < |s| ==> '0' <= s[i] <= '9'
  {
    if |s| == 0 then 0
    else 10 * DecimalValue(s[..|s| - 1]) + (s[|s| - 1] as int - '0' as int)
  }

  /** Rendering a counter in decimal loses nothing: reading the digits back
      gives the counter. */
  lemma {:induction false} DecimalRoundTrip(n: nat)
    ensures DecimalValue(NatToDecimal(n)) == n
  {
    var s := NatToDecimal(n);
    if n >= 10 {
      DecimalRoundTrip(n / 10);
      assert s[..|s| - 1] == NatToDecimal(n / 10);
    }
  }

  /** Distinct counters are rendered as distinct texts. */
  lemma DecimalInjective(m: nat, n: nat)
    requires NatToDecimal(m) == NatToDecimal(n)
    ensures m == n
  {
    DecimalRoundTrip(m);
    DecimalRoundTrip(n);
  }

  /** The rendering starts with a minus sign exactly for a negative value. */
  lemma IntDecimalSign(n: int)
    ensures |IntToDecimal(n)| > 0 && (IntToDecimal(n)[0] == '-' <==> n < 0)
  {
  }

  /** Distinct values of a 32-bit counter are rendered as distinct texts,
      the minus sign included. */
  lemma IntDecimalInjective(m: int32, n: int32)
    requires IntToDecimal(m as int) == IntToDecimal(n as int)
    ensures m == n
  {
    IntDecimalSign(m as int);
    IntDecimalSign(n as int);
    if m < 0 {
      var a, b: nat := -(m as int), -(n as int);
      var x, y := NatToDecimal(a), NatToDecimal(b);
      assert x == ("-" + x)[1..] && y == ("-" + y)[1..];
      DecimalInjective(a, b);
    } else {
      DecimalInjective(m as int, n as int);
    }
  }
}
