/**
 * PHP's numbers as exact decimals: the `(float)` cast of a string (its
 * leading numeric prefix), the conversion of a number back to a string,
 * and `round()`. Reals stand for PHP floats; IEEE-754 rounding is not modelled.
 */
module PhpNumbers {
  import opened PhpCore
  import opened PhpStrings

  function Pow10(n: nat): (r: nat)
    ensures r >= 1
  {
    if n == 0 then 1 else 10 * Pow10(n - 1)
  }

  predicate IsDigit(c: char) {
    '0' <= c <= '9'
  }

  predicate AllDigits(s: string) {
    forall i | 0 <= i < |s| :: IsDigit(s[i])
  }

  /** The number a string of decimal digits denotes, most significant first. */
  function DigitsValue(ds: string): nat
    requires AllDigits(ds)
    decreases |ds|
  {
    if ds == [] then 0 else 10 * DigitsValue(ds[..|ds| - 1]) + (ds[|ds| - 1] as int - '0' as int)
  }

  lemma {:induction false} DigitsValueAppend(a: string, b: string)
    requires AllDigits(a) && AllDigits(b)
    ensures AllDigits(a + b)
    ensures DigitsValue(a + b) == DigitsValue(a) * Pow10(|b|) + DigitsValue(b)
    decreases |b|
  {
    assert AllDigits(a + b) by {
      forall i | 0 <= i < |a + b| ensures IsDigit((a + b)[i]) {
        if i < |a| { assert (a + b)[i] == a[i]; } else { assert (a + b)[i] == b[i - |a|]; }
      }
    }
    if b == [] {
      assert a + b == a;
    } else {
      var b' := b[..|b| - 1];
      var last := b[|b| - 1] as int - '0' as int;
      DigitsValueAppend(a, b');
      assert (a + b)[..|a + b| - 1] == a + b';
      assert (a + b)[|a + b| - 1] == b[|b| - 1];
      assert DigitsValue(a + b) == 10 * DigitsValue(a + b') + last;
      assert DigitsValue(b) == 10 * DigitsValue(b') + last;
      assert Pow10(|b|) == 10 * Pow10(|b'|);
      ShiftDigit(DigitsValue(a), Pow10(|b'|), DigitsValue(b'));
    }
  }

  lemma ShiftDigit(x: int, p: int, y: int)
    ensures 10 * (x * p + y) == x * (10 * p) + 10 * y
  {
  }

  function DigitChar(d: nat): (c: char)
    requires d < 10
    ensures IsDigit(c) && c as int - '0' as int == d
  {
    ('0' as int + d) as char
  }

  /** The decimal digits of `n`, without leading zeros. */
  function NatText(n: nat): (s: string)
    ensures |s| >= 1 && AllDigits(s)
    ensures DigitsValue(s) == n
    ensures s[0] == '0' ==> n == 0
  {
    if n < 10 then [DigitChar(n)]
    else
      var s := NatText(n / 10) + [DigitChar(n % 10)];
      assert s[..|s| - 1] == NatText(n / 10);
      s
  }

  /** PHP's rendering of an integer. */
  function IntText(i: int): string {
    if i < 0 then "-" + NatText(-i) else NatText(i)
  }

  function Zeros(n: nat): (z: string)
    ensures |z| == n && AllDigits(z) && DigitsValue(z) == 0
  {
    if n == 0 then ""
    else
      var z := Zeros(n - 1) + "0";
      assert z[..|z| - 1] == Zeros(n - 1);
      z
  }

  /** Left-pad a digit string with zeros up to `width` characters. */
  function PadLeft(s: string, width: nat): (r: string)
    requires AllDigits(s)
    ensures |r| == if |s| >= width then |s| else width
    ensures AllDigits(r) && DigitsValue(r) == DigitsValue(s)
  {
    if |s| >= width then s
    else
      DigitsValueAppend(Zeros(width - |s|), s);
      Zeros(width - |s|) + s
  }

  /** A decimal number, `mantissa` times ten to the `exponent`. */
  datatype Decimal = Decimal(mantissa: int, exponent: int)

  function Value(d: Decimal): real {
    if d.exponent >= 0 then (d.mantissa * Pow10(d.exponent)) as real
    else d.mantissa as real / Pow10(-d.exponent) as real
  }

  /** The number of leading decimal digits of `s`. */
  function DigitRun(s: string): (k: nat)
    ensures k <= |s| && AllDigits(s[..k])
    ensures k < |s| ==> !IsDigit(s[k])
  {
    if |s| > 0 && IsDigit(s[0]) then
      var k := 1 + DigitRun(s[1..]);
      assert forall i | 1 <= i < k :: s[..k][i] == s[1..][..k - 1][i - 1];
      k
    else 0
  }

  lemma {:induction false} DigitRunAfterDigits(ds: string, t: string)
    requires AllDigits(ds)
    requires t == [] || !IsDigit(t[0])
    ensures DigitRun(ds + t) == |ds|
    decreases |ds|
  {
    if ds != [] {
      assert (ds + t)[1..] == ds[1..] + t;
      DigitRunAfterDigits(ds[1..], t);
    }
  }

  /** An exponent suffix "e5", "E-3", "e+2"; 0 when there is none or it has no digits. */
  function ExponentOf(t: string): int {
    if |t| >= 2 && (t[0] == 'e' || t[0] == 'E') then
      var digits := if t[1] == '-' || t[1] == '+' then t[2..] else t[1..];
      var k := DigitRun(digits);
      if k == 0 then 0 else Signed(t[1] == '-', DigitsValue(digits[..k]))
    else 0
  }

  function Signed(neg: bool, m: nat): int {
    if neg then -(m as int) else m
  }

  /** A string without its leading '+' or '-'. */
  function Unsigned(s: string): string {
    if |s| > 0 && (s[0] == '-' || s[0] == '+') then s[1..] else s
  }

  /**
   * Split "ddd.fffREST" into its integral digits, its fractional digits and
   * the rest; either digit run may be empty.
   */
  function SplitNumeral(body: string): (r: (string, string, string))
    ensures AllDigits(r.0) && AllDigits(r.1)
  {
    var k := DigitRun(body);
    var afterWhole := body[k..];
    if |afterWhole| > 0 && afterWhole[0] == '.' then
      var afterPoint := afterWhole[1..];
      var f := DigitRun(afterPoint);
      (body[..k], afterPoint[..f], afterPoint[f..])
    else (body[..k], "", afterWhole)
  }

  /**
   * The `(float)` cast of a string: an optional sign, digits, an optional
   * point and digits, an optional exponent; the longest such prefix is read
   * and the rest ignored. A string without one reads as 0.
   */
  function ParseFloat(s: string): Decimal {
    var (whole, frac, rest) := SplitNumeral(Unsigned(s));
    if |whole| + |frac| == 0 then Decimal(0, 0)
    else
      DigitsValueAppend(whole, frac);
      Decimal(Signed(|s| > 0 && s[0] == '-', DigitsValue(whole + frac)), ExponentOf(rest) - |frac|)
  }

  /** `(float) $s`. */
  function FloatVal(s: string): real {
    Value(ParseFloat(s))
  }

  lemma SplitInteger(ds: string)
    requires AllDigits(ds)
    ensures SplitNumeral(ds) == (ds, "", "")
  {
    DigitRunAfterDigits(ds, "");
    assert ds + "" == ds;
  }

  lemma SplitPointed(ds: string, fs: string)
    requires AllDigits(ds) && AllDigits(fs)
    ensures SplitNumeral(ds + "." + fs) == (ds, fs, "")
  {
    var body := ds + ("." + fs);
    assert ds + "." + fs == body;
    DigitRunAfterDigits(ds, "." + fs);
    assert body[..|ds|] == ds;
    assert body[|ds|..] == "." + fs;
    assert ("." + fs)[1..] == fs;
    DigitRunAfterDigits(fs, "");
    assert fs + "" == fs;
  }

  lemma ParseInteger(sign: string, ds: string)
    requires sign == "" || sign == "-"
    requires |ds| >= 1 && AllDigits(ds)
    ensures ParseFloat(sign + ds) == Decimal(Signed(sign == "-", DigitsValue(ds)), 0)
  {
    var s := sign + ds;
    assert Unsigned(s) == ds by {
      if sign == "-" {
        assert s[1..] == ds;
      } else {
        assert s == ds && !(s[0] == '-' || s[0] == '+');
      }
    }
    assert (|s| > 0 && s[0] == '-') == (sign == "-") by {
      if sign == "" {
        assert s[0] == ds[0];
      }
    }
    SplitInteger(ds);
    assert ExponentOf("") == 0;
    assert ds + "" == ds;
  }

  /** A whole decimal's value. */
  lemma ValueWhole(m: int)
    ensures Value(Decimal(m, 0)) == m as real
  {
    assert Pow10(0) == 1;
  }

  /** A run of digits reads as the number it spells. */
  lemma DigitsRead(ds: string)
    requires |ds| >= 1 && AllDigits(ds)
    ensures FloatVal(ds) == DigitsValue(ds) as real
  {
    assert "" + ds == ds;
    ParseInteger("", ds);
    ValueWhole(DigitsValue(ds));
  }

  /** A printed integer reads back as itself. */
  lemma IntTextRead(m: int)
    ensures FloatVal(IntText(m)) == m as real
  {
    if m < 0 {
      ParseInteger("-", NatText(-m));
    } else {
      assert "" + NatText(m) == NatText(m);
      ParseInteger("", NatText(m));
    }
    ValueWhole(m);
  }

  lemma ParsePointed(sign: string, ds: string, fs: string)
    requires sign == "" || sign == "-"
    requires |ds| >= 1 && AllDigits(ds) && AllDigits(fs)
    ensures AllDigits(ds + fs)
    ensures ParseFloat(sign + (ds + "." + fs)) == Decimal(Signed(sign == "-", DigitsValue(ds + fs)), -|fs|)
  {
    DigitsValueAppend(ds, fs);
    var body := ds + "." + fs;
    var s := sign + body;
    assert Unsigned(s) == body by {
      if sign == "-" {
        assert s[1..] == body;
      } else {
        assert s == body && s[0] == ds[0];
      }
    }
    assert (|s| > 0 && s[0] == '-') == (sign == "-") by {
      if sign == "" {
        assert s[0] == ds[0];
      }
    }
    SplitPointed(ds, fs);
    assert ExponentOf("") == 0;
  }

  /** Strip the trailing zeros of the fractional digits. */
  function Normalize(d: Decimal): (n: Decimal)
    ensures Value(n) == Value(d)
    ensures n.exponent < 0 ==> n.mantissa % 10 != 0
    ensures d.exponent >= 0 ==> n == d
    decreases if d.exponent < 0 then -d.exponent else 0
  {
    if d.exponent < 0 && d.mantissa % 10 == 0 then
      var m' := d.mantissa / 10;
      var e := -d.exponent;
      assert d.mantissa == 10 * m';
      assert Pow10(e) == 10 * Pow10(e - 1);
      assert Value(Decimal(m', d.exponent + 1)) == Value(d) by {
        if e == 1 {
          assert Value(d) == (10 * m') as real / 10.0;
        } else {
          assert Value(d) == (10 * m') as real / (10 * Pow10(e - 1)) as real;
        }
      }
      Normalize(Decimal(m', d.exponent + 1))
    else d
  }

  function Abs(i: int): nat {
    if i < 0 then -i else i
  }

  /** `a` ten-to-the-`width`ths printed as "-12.05", with `width` digits after the point. */
  function PointedText(neg: bool, a: nat, width: nat): string
    requires width >= 1
  {
    var digits := PadLeft(NatText(a), width + 1);
    (if neg then "-" else "") + (digits[..|digits| - width] + "." + digits[|digits| - width..])
  }

  lemma PointedTextParse(neg: bool, a: nat, width: nat)
    requires width >= 1
    ensures ParseFloat(PointedText(neg, a, width)) == Decimal(Signed(neg, a), -(width as int))
  {
    var digits := PadLeft(NatText(a), width + 1);
    var ds := digits[..|digits| - width];
    var fs := digits[|digits| - width..];
    var sign := if neg then "-" else "";
    assert PointedText(neg, a, width) == sign + (ds + "." + fs);
    PointedDigits(digits, width, ds, fs);
    ParsePointed(sign, ds, fs);
  }

  /** The two halves of a padded run of digits around the point. */
  lemma PointedDigits(digits: string, width: nat, ds: string, fs: string)
    requires AllDigits(digits) && |digits| >= width + 1
    requires ds == digits[..|digits| - width] && fs == digits[|digits| - width..]
    ensures |ds| >= 1 && |fs| == width && AllDigits(ds) && AllDigits(fs)
    ensures DigitsValue(ds + fs) == DigitsValue(digits)
  {
    assert ds + fs == digits;
  }

  /**
   * PHP's conversion of a float to a string, in fixed notation: integral
   * values without a point, others with their fractional digits and no
   * trailing zero.
   */
  function DecimalText(d: Decimal): string {
    var n := Normalize(d);
    if n.exponent >= 0 then IntText(n.mantissa * Pow10(n.exponent))
    else PointedText(n.mantissa < 0, Abs(n.mantissa), -n.exponent)
  }

  /** Reading back what PHP printed gives the same number. */
  lemma DecimalTextRoundTrip(d: Decimal)
    ensures FloatVal(DecimalText(d)) == Value(d)
  {
    var n := Normalize(d);
    if n.exponent >= 0 {
      IntTextRead(n.mantissa * Pow10(n.exponent));
    } else {
      PointedTextParse(n.mantissa < 0, Abs(n.mantissa), -n.exponent);
      assert ParseFloat(DecimalText(d)) == n;
    }
  }

  lemma ZeroText(d: Decimal)
    requires Value(d) == 0.0
    ensures DecimalText(d) == "0"
  {
    var n := Normalize(d);
    assert n.mantissa == 0;
    assert n.exponent >= 0;
    assert NatText(0) == "0";
  }

  lemma FalsyTextsReadZero()
    ensures FloatVal("0") == 0.0 && FloatVal("") == 0.0
  {
    ParseInteger("", "0");
    assert "" + "0" == "0";
  }

  /** A printed number is falsy ("0") exactly when it is zero. */
  lemma DecimalTextFalsy(d: Decimal)
    ensures Falsy(DecimalText(d)) <==> Value(d) == 0.0
  {
    if Value(d) == 0.0 {
      ZeroText(d);
    } else {
      DecimalTextRoundTrip(d);
      FalsyTextsReadZero();
      var t := DecimalText(d);
      assert FloatVal(t) != FloatVal("0") && FloatVal(t) != FloatVal("");
    }
  }

  /** PHP's `round($x)`: the nearest integer, halves rounded away from zero. */
  function RoundHalfAway(x: real): (r: int)
    ensures x >= 0.0 ==> x - 0.5 < r as real <= x + 0.5
    ensures x < 0.0 ==> x - 0.5 <= r as real < x + 0.5
  {
    if x >= 0.0 then (x + 0.5).Floor else -((-x + 0.5).Floor)
  }

  /**
   * PHP's `round($x, 2)`, as a number of hundredths: the nearest multiple
   * of 0.01, a half rounded away from zero.
   */
  function RoundCents(x: real): (d: Decimal)
    ensures d.exponent == -2
    ensures x >= 0.0 ==> -0.005 < Value(d) - x <= 0.005
    ensures x < 0.0 ==> -0.005 <= Value(d) - x < 0.005
    ensures x >= 1.0 ==> Value(d) >= 1.0
  {
    var r := RoundHalfAway(x * 100.0);
    assert Value(Decimal(r, -2)) == r as real / 100.0 by {
      assert Pow10(2) == 100;
    }
    assert x >= 1.0 ==> r >= 100 by {
      if x >= 1.0 {
        assert r as real > 99.5;
      }
    }
    Decimal(r, -2)
  }

  /**
   * A PHP value that is a float or a string that is not numeric; a numeric
   * string would be compared and computed with as its number.
   */
  datatype Scalar = Float(d: Decimal) | NonNumeric(s: string)

  /** `$v < $n` under PHP 8: a float compares as a number, a non-numeric string with the text of `$n`. */
  predicate LessThan(v: Scalar, n: int) {
    match v
    case Float(d) => Value(d) < n as real
    case NonNumeric(s) => LexLess(s, IntText(n))
  }

  /** `$v > $n` under PHP 8. */
  predicate GreaterThan(v: Scalar, n: int) {
    match v
    case Float(d) => Value(d) > n as real
    case NonNumeric(s) => LexLess(IntText(n), s)
  }

  /**
   * Whether `s` starts with a number: an optional sign, then digits or a
   * point and digits. As in `FloatVal`, leading whitespace is not skipped.
   */
  predicate LeadingNumeric(s: string) {
    var (whole, frac, _) := SplitNumeral(Unsigned(s));
    |whole| + |frac| > 0
  }

  /**
   * `$v` as an operand of arithmetic or as a float argument under PHP 8: a
   * string that starts with a number is read as that number (with a
   * warning); one that does not is a TypeError.
   */
  function AsNumber(v: Scalar): Result<real> {
    match v
    case Float(d) => Ok(Value(d))
    case NonNumeric(s) => if LeadingNumeric(s) then Ok(FloatVal(s)) else Err(TypeError)
  }

  /** `(string) $v`. */
  function ScalarText(v: Scalar): string {
    match v
    case Float(d) => DecimalText(d)
    case NonNumeric(s) => s
  }
}
