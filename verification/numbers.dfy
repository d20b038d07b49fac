/**
 * The numbers a JsonNumber can hold and the conversions between them:
 * Java's fixed-width integers (byte, short, int, long), BigInteger and
 * BigDecimal, with Java's two's-complement narrowing, BigDecimal's
 * truncation toward zero, their decimal text forms (`toString`) and the
 * parsers the library uses on text (`Byte.valueOf`, ..., `new BigInteger`,
 * `new BigDecimal`).
 */
module Numbers {
  import opened Wrappers

  /** The integral number classes: byte, short, int, long and BigInteger. */
  datatype IntWidth = Byte | Short | Int | Long | Big

  /** A numeric target class. */
  datatype NumericClass = IntClass(width: IntWidth) | DecimalClass

  /**
   * A number value: an integral of some width, or a BigDecimal
   * `unscaled * 10^-scale` (the scale is a Java int).
   */
  datatype Number = Integral(width: IntWidth, value: int) | Decimal(unscaled: int, scale: int)

  /** 2 to the width's bit count; BigInteger has no bound. */
  function Modulus(w: IntWidth): nat
    requires !w.Big?
  {
    match w
    case Byte => 0x100
    case Short => 0x1_0000
    case Int => 0x1_0000_0000
    case Long => 0x1_0000_0000_0000_0000
  }

  /** The range of a width. */
  predicate Fits(w: IntWidth, v: int)
  {
    w.Big? || -(Modulus(w) / 2) <= v < Modulus(w) / 2
  }

  predicate ValidNumber(n: Number)
  {
    match n
    case Integral(w, v) => Fits(w, v)
    case Decimal(_, s) => Fits(Int, s)
  }

  function ClassOf(n: Number): NumericClass
  {
    if n.Integral? then IntClass(n.width) else DecimalClass
  }

  /**
   * Java's narrowing cast to a width: the low-order bits read as a
   * two's-complement number. BigInteger keeps every bit.
   */
  function Narrow(w: IntWidth, v: int): (r: int)
    ensures Fits(w, r)
  {
    if w.Big? then v
    else
      var m := v % Modulus(w);
      if m >= Modulus(w) / 2 then m - Modulus(w) else m
  }

  /** A value already in range survives narrowing. */
  lemma NarrowFits(w: IntWidth, v: int)
    requires Fits(w, v)
    ensures Narrow(w, v) == v
  {
  }

  /** Narrowing to a fixed width looks only at the residue modulo the width's modulus. */
  lemma NarrowResidue(w: IntWidth, a: int, b: int)
    requires !w.Big? && a % Modulus(w) == b % Modulus(w)
    ensures Narrow(w, a) == Narrow(w, b)
  {
  }

  /** Narrowing to int moves a value by a multiple of 2^32. */
  lemma NarrowIntOffset(v: int) returns (k: int)
    ensures Narrow(Int, v) == v + k * 0x1_0000_0000
  {
    var q := v / 0x1_0000_0000;
    if v % 0x1_0000_0000 >= 0x8000_0000 {
      k := -q - 1;
    } else {
      k := -q;
    }
  }

  /** Narrowing to int first and then to a smaller width is narrowing to that width. */
  lemma NarrowThroughInt(w: IntWidth, v: int)
    requires w.Byte? || w.Short? || w.Int?
    ensures Narrow(w, Narrow(Int, v)) == Narrow(w, v)
  {
    var k := NarrowIntOffset(v);
    var y := Narrow(Int, v);
    match w
    case Byte =>
      ModShift(y, v, 0x100, k * 0x100_0000);
      NarrowResidue(w, y, v);
    case Short =>
      ModShift(y, v, 0x1_0000, k * 0x1_0000);
      NarrowResidue(w, y, v);
    case Int =>
      NarrowFits(Int, y);
  }

  /** Numbers that differ by a multiple of `m` have the same residue. */
  lemma ModShift(a: int, b: int, m: int, k: int)
    requires m > 0 && a == b + k * m
    ensures a % m == b % m
  {
    var qb := b / m;
    var rb := b % m;
    assert a == (qb + k) * m + rb;
    DivModUnique(a, m, qb + k, rb);
  }

  lemma DivModUnique(a: int, m: int, q: int, r: int)
    requires m > 0 && 0 <= r < m && a == q * m + r
    ensures a % m == r && a / m == q
  {
    var q' := a / m;
    var r' := a % m;
    var d := q - q';
    assert q * m - q' * m == d * m by {
      MulDistributes(q, q', m);
    }
    MulSmall(d, m);
  }

  /** The only multiple of `m` strictly between `-m` and `m` is zero. */
  lemma MulSmall(d: int, m: int)
    requires m > 0 && -m < d * m < m
    ensures d == 0
  {
    if d >= 1 {
      MulAtLeast(d, m);
    } else if d <= -1 {
      MulAtLeast(-d, m);
    }
  }

  lemma MulDistributes(x: int, y: int, m: int)
    ensures x * m - y * m == (x - y) * m
  {
  }

  lemma {:induction false} MulAtLeast(d: int, m: int)
    requires d >= 1 && m > 0
    ensures d * m >= m
  {
    if d > 1 {
      MulAtLeast(d - 1, m);
      assert d * m == (d - 1) * m + m;
    }
  }

  function Pow10(k: nat): (r: nat)
    ensures r >= 1
  {
    if k == 0 then 1 else 10 * Pow10(k - 1)
  }

  /** Integer division rounding toward zero, as `BigInteger.divide` does. */
  function QuotientTowardZero(a: int, b: nat): int
    requires b > 0
  {
    if a >= 0 then a / b else -((-a) / b)
  }

  /** `BigDecimal.toBigInteger`: the integer part, the fraction discarded. */
  function IntegerPart(unscaled: int, scale: int): int
  {
    if scale <= 0 then unscaled * Pow10(-scale) else QuotientTowardZero(unscaled, Pow10(scale))
  }

  /** Division of a natural number: the quotient times the divisor is at most the dividend, less than one divisor below it. */
  lemma QuotientBounds(a: nat, p: nat)
    requires p > 0
    ensures 0 <= (a / p) * p <= a < (a / p) * p + p
  {
    var t := a / p;
    assert a == t * p + a % p;
    if t > 0 {
      MulAtLeast(t, p);
    }
  }

  /**
   * Division rounding toward zero leaves a quotient between the exact
   * value and zero, less than one divisor away: for BigDecimal's integer
   * part, whose divisor is `10^scale`, the fraction is dropped toward zero.
   */
  lemma QuotientTowardZeroBounds(a: int, p: nat)
    requires p > 0
    ensures a >= 0 ==> 0 <= QuotientTowardZero(a, p) * p <= a < QuotientTowardZero(a, p) * p + p
    ensures a < 0 ==> QuotientTowardZero(a, p) * p - p < a <= QuotientTowardZero(a, p) * p <= 0
  {
    var q := QuotientTowardZero(a, p);
    if a >= 0 {
      assert q == a / p;
      QuotientBounds(a, p);
    } else {
      var t := (-a) / p;
      assert q == -t;
      QuotientBounds(-a, p);
      assert q * p == -(t * p);
    }
  }

  /** A BigDecimal with scale zero or below is an integer and loses nothing. */
  lemma IntegerPartExact(unscaled: int, scale: int)
    requires scale <= 0
    ensures IntegerPart(unscaled, scale) == unscaled * Pow10(-scale)
  {
  }

  /**
   * The integral or BigDecimal value `n` converted to a numeric class, as
   * `JsonNumber.toJavaObject` does for each pair of source and target
   * class: `xValue()` narrowing, `BigInteger.valueOf`, `new BigDecimal(intValue())`
   * and `toBigInteger`.
   */
  function Convert(n: Number, c: NumericClass): (r: Number)
    ensures ClassOf(r) == c
    ensures r.Decimal? && n.Decimal? ==> r == n
    ensures r.Decimal? && n.Integral? ==> r.scale == 0
  {
    match n
    case Integral(w, v) =>
      (match c
       case IntClass(t) =>
         if t == w then n
         else if w.Big? && (t.Byte? || t.Short?) then Integral(t, Narrow(t, Narrow(Int, v)))
         else Integral(t, Narrow(t, v))
       case DecimalClass => Decimal(if w.Long? then Narrow(Int, v) else v, 0))
    case Decimal(u, s) =>
      var whole := IntegerPart(u, s);
      match c
      case IntClass(t) =>
        if t.Byte? || t.Short? then Integral(t, Narrow(t, Narrow(Int, whole)))
        else Integral(t, Narrow(t, whole))
      case DecimalClass => n
  }

  /** Every conversion yields a value of its class's range. */
  lemma ConvertValid(n: Number, c: NumericClass)
    requires ValidNumber(n)
    ensures ValidNumber(Convert(n, c))
  {
  }

  /** Asking for a number's own class gives the number back. */
  lemma ConvertSameClass(n: Number)
    ensures Convert(n, ClassOf(n)) == n
  {
  }

  /**
   * Between integral classes the result is the source value narrowed to
   * the target width: two's-complement truncation, never an error.
   */
  lemma ConvertIntegral(w: IntWidth, v: int, t: IntWidth)
    requires Fits(w, v)
    ensures Convert(Integral(w, v), IntClass(t)) == Integral(t, Narrow(t, v))
  {
    if t == w {
      NarrowFits(w, v);
    } else if w.Big? && (t.Byte? || t.Short?) {
      NarrowThroughInt(t, v);
    }
  }

  /** Widening (a target that holds the whole source range) is exact. */
  lemma ConvertWidening(w: IntWidth, v: int, t: IntWidth)
    requires Fits(w, v) && Fits(t, v)
    ensures Convert(Integral(w, v), IntClass(t)) == Integral(t, v)
  {
    ConvertIntegral(w, v, t);
    NarrowFits(t, v);
  }

  /**
   * To BigDecimal: byte, short, int and BigInteger values are exact, a long
   * keeps only its low 32 bits, and the scale is zero.
   */
  lemma ConvertToDecimal(w: IntWidth, v: int)
    requires Fits(w, v)
    ensures Convert(Integral(w, v), DecimalClass) == Decimal(if w.Long? then Narrow(Int, v) else v, 0)
    ensures !w.Long? ==> Convert(Integral(w, v), DecimalClass).unscaled == v
  {
  }

  /** A long outside the int range loses its high bits on the way to BigDecimal. */
  lemma LongToDecimalLosesHighBits()
    ensures Convert(Integral(Long, 0x1_0000_0001), DecimalClass) == Decimal(1, 0)
  {
  }

  /** From BigDecimal: the integer part, narrowed to the target width. */
  lemma ConvertFromDecimal(u: int, s: int, t: IntWidth)
    ensures Convert(Decimal(u, s), IntClass(t)) == Integral(t, Narrow(t, IntegerPart(u, s)))
  {
    if t.Byte? || t.Short? {
      NarrowThroughInt(t, IntegerPart(u, s));
    }
  }

  // ---- Decimal text ----

  function DigitChar(d: nat): char
    requires d < 10
  {
    ('0' as int + d) as char
  }

  predicate IsDigit(c: char)
  {
    '0' <= c <= '9'
  }

  function DigitValue(c: char): nat
    requires IsDigit(c)
  {
    c as int - '0' as int
  }

  /** The decimal digits of a natural number, without leading zeros. */
  function NatText(n: nat): (r: string)
    ensures |r| >= 1
    ensures forall i :: 0 <= i < |r| ==> IsDigit(r[i])
    ensures r[0] == '0' ==> n == 0
  {
    if n < 10 then [DigitChar(n)] else NatText(n / 10) + [DigitChar(n % 10)]
  }

  /** `Long.toString` and `BigInteger.toString`: a minus sign for negatives. */
  function IntText(v: int): string
  {
    if v < 0 then "-" + NatText(-v) else NatText(v)
  }

  /** The value of a string of decimal digits, most significant first. */
  function DigitsValue(s: string): nat
    requires forall i :: 0 <= i < |s| ==> IsDigit(s[i])
  {
    if |s| == 0 then 0 else 10 * DigitsValue(s[..|s| - 1]) + DigitValue(s[|s| - 1])
  }

  predicate AllDigits(s: string)
  {
    forall i :: 0 <= i < |s| ==> IsDigit(s[i])
  }

  /**
   * The decimal integer grammar shared by `Integer.parseInt`,
   * `Long.parseLong` and `new BigInteger(String)`: an optional sign and at
   * least one digit, nothing else.
   */
  function ParseInt(s: string): (r: Option<int>)
    ensures r.Some? ==> |s| >= 1
    ensures s == [] ==> r.None?
  {
    if |s| == 0 then None
    else if s[0] == '-' || s[0] == '+' then
      var digits := s[1..];
      if |digits| > 0 && AllDigits(digits) then
        var magnitude: int := DigitsValue(digits);
        Some(if s[0] == '-' then -magnitude else magnitude)
      else None
    else if AllDigits(s) then Some(DigitsValue(s))
    else None
  }

  lemma {:induction false} NatTextValue(n: nat)
    ensures DigitsValue(NatText(n)) == n
  {
    if n >= 10 {
      NatTextValue(n / 10);
      var t := NatText(n);
      assert t[..|t| - 1] == NatText(n / 10);
    }
  }

  /** Parsing the text of an integer gives the integer back. */
  lemma ParseIntText(v: int)
    ensures ParseInt(IntText(v)) == Some(v)
  {
    var t := NatText(if v < 0 then -v else v);
    NatTextValue(if v < 0 then -v else v);
    ParseDigitsText(t);
  }

  /** A run of digits parses to its value, and with a minus sign in front to its negation. */
  lemma ParseDigitsText(t: string)
    requires |t| >= 1 && AllDigits(t)
    ensures ParseInt(t) == Some(DigitsValue(t) as int)
    ensures ParseInt("-" + t) == Some(-(DigitsValue(t) as int))
  {
    ParsePlainDigits(t);
    ParseNegatedDigits(t);
  }

  lemma ParsePlainDigits(t: string)
    requires |t| >= 1 && AllDigits(t)
    ensures ParseInt(t) == Some(DigitsValue(t) as int)
  {
    assert IsDigit(t[0]);
  }

  lemma ParseNegatedDigits(t: string)
    requires |t| >= 1 && AllDigits(t)
    ensures ParseInt("-" + t) == Some(-(DigitsValue(t) as int))
  {
    var s := "-" + t;
    assert s[0] == '-';
    assert s[1..] == t;
  }

  /**
   * `Byte.valueOf`, `Short.valueOf`, `Integer.valueOf`, `Long.valueOf` and
   * `new BigInteger` on text: the parsed value when it is in the width's
   * range, otherwise the NumberFormatException the caller turns into null.
   */
  function ParseIntegral(s: string, w: IntWidth): (r: Option<Number>)
    ensures r.Some? ==> r.value.Integral? && r.value.width == w && ValidNumber(r.value)
    ensures r.Some? <==> ParseInt(s).Some? && Fits(w, ParseInt(s).value)
  {
    match ParseInt(s)
    case None => None
    case Some(v) => if Fits(w, v) then Some(Integral(w, v)) else None
  }

  /** The text of a value in range parses back to it at its own width. */
  lemma ParseIntegralText(w: IntWidth, v: int)
    requires Fits(w, v)
    ensures ParseIntegral(IntText(v), w) == Some(Integral(w, v))
  {
    ParseIntText(v);
  }

  function Zeros(k: nat): (r: string)
    ensures |r| == k
  {
    if k == 0 then "" else "0" + Zeros(k - 1)
  }

  /**
   * `BigDecimal.toString`: plain notation when the scale is zero, or
   * positive with an adjusted exponent of at least -6; scientific notation
   * (one digit, the others after a point, then `E` and a signed exponent)
   * otherwise.
   */
  function DecimalText(unscaled: int, scale: int): string
  {
    var sign := if unscaled < 0 then "-" else "";
    var coeff := NatText(if unscaled < 0 then -unscaled else unscaled);
    var adjusted := -scale + (|coeff| - 1);
    if scale == 0 then sign + coeff
    else if scale > 0 && adjusted >= -6 then
      if scale >= |coeff| then sign + "0." + Zeros(scale - |coeff|) + coeff
      else sign + coeff[..|coeff| - scale] + "." + coeff[|coeff| - scale..]
    else
      sign + coeff[..1] + (if |coeff| > 1 then "." + coeff[1..] else "")
      + "E" + (if adjusted > 0 then "+" else "-") + NatText(if adjusted < 0 then -adjusted else adjusted)
  }

  /** `String.valueOf` of a number. */
  function NumberText(n: Number): string
  {
    match n
    case Integral(_, v) => IntText(v)
    case Decimal(u, s) => DecimalText(u, s)
  }

  /** A BigDecimal of scale zero prints as its unscaled integer. */
  lemma DecimalTextScaleZero(u: int)
    ensures DecimalText(u, 0) == IntText(u)
  {
  }

  /** The index of the first `c` in `s`, or `|s|` when there is none. */
  function IndexOf(s: string, c: char): (k: nat)
    ensures k <= |s|
    ensures k < |s| ==> s[k] == c
    ensures forall i :: 0 <= i < k ==> s[i] != c
  {
    if |s| == 0 then 0
    else if s[0] == c then 0
    else 1 + IndexOf(s[1..], c)
  }

  /**
   * A significand: digits, at most one point, at least one digit. Its
   * magnitude ignores the point; the second component counts the digits
   * after the point.
   */
  function ParseSignificand(s: string): Option<(nat, nat)>
  {
    var p := IndexOf(s, '.');
    var whole := s[..p];
    var fraction := if p < |s| then s[p + 1..] else "";
    if AllDigits(whole) && AllDigits(fraction) && |whole| + |fraction| >= 1 then
      Some((DigitsValue(whole + fraction), |fraction|))
    else None
  }

  function IndexOfExponent(s: string): (k: nat)
    ensures k <= |s|
    ensures k < |s| ==> s[k] == 'e' || s[k] == 'E'
    ensures forall i :: 0 <= i < k ==> s[i] != 'e' && s[i] != 'E'
  {
    if |s| == 0 then 0
    else if s[0] == 'e' || s[0] == 'E' then 0
    else 1 + IndexOfExponent(s[1..])
  }

  /**
   * `new BigDecimal(String)`: an optional sign, a significand with at most
   * one point and at least one digit, an optional exponent `e`/`E` with an
   * optional sign and at least one digit. The scale is the number of
   * fraction digits minus the exponent and must fit an int.
   */
  function ParseDecimal(s: string): (r: Option<Number>)
    ensures r.Some? ==> r.value.Decimal? && ValidNumber(r.value)
  {
    if |s| == 0 then None
    else DecimalBody(s[0] == '-', if s[0] == '-' || s[0] == '+' then s[1..] else s)
  }

  /** The part of `new BigDecimal(String)` after the sign. */
  function DecimalBody(negative: bool, body: string): (r: Option<Number>)
    ensures r.Some? ==> r.value.Decimal? && ValidNumber(r.value)
  {
    var e := IndexOf(body, 'e');
    var e' := IndexOf(body, 'E');
    var k := if e < e' then e else e';
    DecimalParts(negative, ParseSignificand(body[..k]), if k == |body| then Some(0) else ParseInt(body[k + 1..]))
  }

  /** A signed significand and an exponent as a BigDecimal, when the scale fits an int. */
  function DecimalParts(negative: bool, significand: Option<(nat, nat)>, exponent: Option<int>): (r: Option<Number>)
    ensures r.Some? ==> r.value.Decimal? && ValidNumber(r.value)
  {
    if significand.None? || exponent.None? then None
    else
      var m: int := significand.value.0;
      var scale := significand.value.1 - exponent.value;
      if Fits(Int, scale) then Some(Decimal(if negative then -m else m, scale)) else None
  }

  /** Integer text reads as a BigDecimal of scale zero. */
  lemma ParseDecimalOfIntText(v: int)
    ensures ParseDecimal(IntText(v)) == Some(Decimal(v, 0))
  {
    var m: nat := if v < 0 then -v else v;
    var body := NatText(m);
    NatTextValue(m);
    if v < 0 {
      assert IntText(v)[1..] == body;
    }
    DecimalBodyDigits(v < 0, body);
    DecimalPartsWhole(v < 0, m);
  }

  /** A sign followed by digits alone is a BigDecimal of scale zero. */
  lemma DecimalBodyDigits(negative: bool, body: string)
    requires AllDigits(body) && |body| >= 1
    ensures DecimalBody(negative, body) == DecimalParts(negative, Some((DigitsValue(body), 0)), Some(0))
  {
    IndexOfNonDigit(body, 'e');
    IndexOfNonDigit(body, 'E');
    assert body[..|body|] == body;
    ParseSignificandDigits(body);
  }

  lemma DecimalPartsWhole(negative: bool, n: nat)
    ensures var m: int := n; DecimalParts(negative, Some((n, 0)), Some(0)) == Some(Decimal(if negative then -m else m, 0))
  {
    assert Fits(Int, 0);
  }

  /** A plain run of digits is a significand without a fraction. */
  lemma ParseSignificandDigits(s: string)
    requires AllDigits(s) && |s| >= 1
    ensures ParseSignificand(s) == Some((DigitsValue(s), 0))
  {
    IndexOfNonDigit(s, '.');
    assert s[..|s|] == s;
    assert s + "" == s;
  }

  lemma {:induction false} IndexOfNonDigit(s: string, c: char)
    requires AllDigits(s) && !IsDigit(c)
    ensures IndexOf(s, c) == |s|
  {
    if |s| > 0 {
      IndexOfNonDigit(s[1..], c);
    }
  }

}
