/**
 * The few facts about the Java platform that the storage core leans on:
 * exceptions as values, 32-bit `int` arithmetic, `Integer.toString`,
 * `new Integer(String)` and `String.hashCode`.
 */
module JavaLang {

  datatype Option<+T> = None | Some(value: T)

  /** The exceptions the modelled code throws or lets escape. */
  datatype Exception =
    | NoSuchElement      // java.util.NoSuchElementException
    | IllegalArgument    // java.lang.IllegalArgumentException
    | NullPointer        // java.lang.NullPointerException
    | ClassCast          // java.lang.ClassCastException
    | IndexOutOfBounds   // java.lang.ArrayIndexOutOfBoundsException
    | NumberFormat       // java.lang.NumberFormatException

  datatype Result<+T> = Ok(value: T) | Err(error: Exception)

  /** The outcome of a call that returns nothing (`void`) but may throw. */
  datatype Outcome = Pass | Fail(error: Exception)

  const INT_MIN: int := -0x8000_0000
  const INT_MAX: int := 0x7fff_ffff
  const TWO_32: int := 0x1_0000_0000

  predicate IsInt32(x: int) { INT_MIN <= x <= INT_MAX }

  /** Java's narrowing to `int`: keep the low 32 bits, read them as two's complement. */
  function ToInt32(x: int): (r: int)
    ensures IsInt32(r)
    ensures (x - r) % TWO_32 == 0
    ensures IsInt32(x) ==> r == x
  {
    var m := x % TWO_32;
    if m <= INT_MAX then m else m - TWO_32
  }

  /** Wrapping an intermediate result does not change a wrapped sum: `int` addition is addition modulo 2^32. */
  lemma ToInt32AddWrapped(x: int, a: int)
    ensures ToInt32(ToInt32(x) + a) == ToInt32(x + a)
  {
    var r := ToInt32(x);
    var q := (x - r) / TWO_32;
    assert x - r == TWO_32 * q;
    assert (x + a) == (r + a) + TWO_32 * q;
    ModShift(r + a, q);
  }

  lemma ModShift(y: int, q: int)
    ensures (y + TWO_32 * q) % TWO_32 == y % TWO_32
  {
    var m := y % TWO_32;
    var d := y / TWO_32;
    assert y == TWO_32 * d + m;
    assert y + TWO_32 * q == TWO_32 * (d + q) + m;
  }

  /** Java's integer `/` for a positive divisor: the quotient is rounded toward zero. */
  function JavaDiv(a: int, b: int): (q: int)
    requires b > 0
    ensures 0 <= a ==> 0 <= a - q * b < b
    ensures a < 0 ==> -b < a - q * b <= 0
  {
    if a >= 0 then a / b else -((-a) / b)
  }

  function Digit(d: int): (c: char)
    requires 0 <= d < 10
    ensures IsDigit(c) && c as int - '0' as int == d
  {
    (d + '0' as int) as char
  }

  predicate IsDigit(c: char) { '0' as int <= c as int <= '9' as int }

  /** Decimal digits of a natural number, most significant first, without leading zeros. */
  function NatDecimal(n: nat): (s: string)
    ensures |s| >= 1
    ensures forall i :: 0 <= i < |s| ==> IsDigit(s[i])
    decreases n
  {
    if n < 10 then [Digit(n)] else NatDecimal(n / 10) + [Digit(n % 10)]
  }

  /** `Integer.toString(n)`: an optional minus sign followed by the digits of |n|. */
  function Decimal(n: int): (s: string)
  {
    if n < 0 then "-" + NatDecimal(-n) else NatDecimal(n)
  }

  /** The value of a non-empty run of decimal digits. */
  function DigitsValue(s: string): (v: nat)
    requires |s| >= 1
    requires forall i :: 0 <= i < |s| ==> IsDigit(s[i])
    decreases |s|
  {
    assert IsDigit(s[|s| - 1]);
    var last := s[|s| - 1] as int - '0' as int;
    if |s| == 1 then last else DigitsValue(s[..|s| - 1]) * 10 + last
  }

  predicate AllDigits(s: string) { |s| >= 1 && forall i :: 0 <= i < |s| ==> IsDigit(s[i]) }

  /**
   * `new Integer(s)` (that is, `Integer.parseInt(s, 10)`) over ASCII digits: an
   * optional sign and at least one digit '0'-'9', whose value must fit in an
   * `int`; anything else throws NumberFormatException here. Java also accepts
   * the other Unicode decimal digits, which this function does not.
   */
  function ParseInt(s: string): (r: Result<int>)
    ensures r.Ok? ==> IsInt32(r.value)
    ensures s == [] ==> r == Err(NumberFormat)
  {
    var neg := |s| >= 1 && s[0] == '-';
    var body := if |s| >= 1 && (s[0] == '-' || s[0] == '+') then s[1..] else s;
    if !AllDigits(body) then Err(NumberFormat)
    else
      var v: int := if neg then -(DigitsValue(body) as int) else DigitsValue(body);
      if IsInt32(v) then Ok(v) else Err(NumberFormat)
  }

  lemma {:induction false} DigitsOfNatDecimal(n: nat)
    ensures DigitsValue(NatDecimal(n)) == n
    decreases n
  {
    if n >= 10 {
      var s := NatDecimal(n);
      assert s[..|s| - 1] == NatDecimal(n / 10);
      DigitsOfNatDecimal(n / 10);
    }
  }

  /** Parsing what `Integer.toString` printed gives the number back. */
  lemma ParseDecimal(n: int)
    requires IsInt32(n)
    ensures ParseInt(Decimal(n)) == Ok(n)
  {
    if n < 0 {
      var d := NatDecimal(-n);
      var s := Decimal(n);
      assert s == "-" + d;
      assert s[0] == '-' && s[1..] == d;
      assert AllDigits(d);
      DigitsOfNatDecimal(-n);
      assert DigitsValue(d) as int == -n;
    } else {
      var d := NatDecimal(n);
      assert Decimal(n) == d;
      assert IsDigit(d[0]) && AllDigits(d);
      DigitsOfNatDecimal(n);
      assert DigitsValue(d) == n;
    }
  }

  /** `String.hashCode`: h = 31 * h + c over the characters, in `int` arithmetic. */
  function StringHash(s: string): (h: int)
    ensures IsInt32(h)
    decreases |s|
  {
    if s == [] then 0 else ToInt32(31 * StringHash(s[..|s| - 1]) + s[|s| - 1] as int)
  }
}
