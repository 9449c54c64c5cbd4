/**
 * The photo gallery's `Formatting` helpers: shutter speeds for display,
 * GPS degrees/minutes/seconds to signed decimal degrees, and the one-line
 * EXIF caption.
 */
module GalleryFormatting {
  import opened PhpCore
  import opened PhpStrings
  import opened PhpNumbers
  import opened ExifCommon

  /**
   * `format_shutter_speed`. A value without '/' is cast to a float. A value
   * with '/' stays a string that is not numeric, so PHP 8 compares it with
   * 1 and 0 as strings, and `1 / $s` and `round( $s, 2 )` read its leading
   * number: one that reads as 0 is a DivisionByZeroError, one without a
   * leading number a TypeError. Nothing catches either.
   */
  function FormatShutterSpeed(s: string): (r: Result<string>)
    ensures Falsy(s) ==> r == Ok("")
    ensures r.Err? ==> Contains(s, "/") && (r.error == DivisionByZeroError || r.error == TypeError)
  {
    if Falsy(s) then Ok("")
    else
      var speed := if Contains(s, "/") then NonNumeric(s) else Float(ParseFloat(s));
      if LessThan(speed, 1) && GreaterThan(speed, 0) then
        var v :- AsNumber(speed);
        if v == 0.0 then Err(DivisionByZeroError)
        else Ok("1/" + IntText(RoundHalfAway(1.0 / v)))
      else if !LessThan(speed, 1) then
        var v :- AsNumber(speed);
        Ok(DecimalText(RoundCents(v)))
      else Ok(ScalarText(speed))
  }

  /** Below one second the result is "1/N", N the nearest whole number to 1/v. */
  lemma ShutterBelowOneSecond(s: string)
    requires Truthy(s) && !Contains(s, "/")
    requires 0.0 < FloatVal(s) < 1.0
    ensures FormatShutterSpeed(s).Ok?
    ensures var r := FormatShutterSpeed(s).value;
      && |r| > 2 && r[..2] == "1/"
      && FloatVal(r[2..]) >= 1.0
      && FloatVal(r[2..]) == FloatVal(r[2..]).Floor as real
      && 1.0 / FloatVal(s) - 0.5 < FloatVal(r[2..]) <= 1.0 / FloatVal(s) + 0.5
  {
    var v := FloatVal(s);
    assert FormatShutterSpeed(s) == Ok("1/" + IntText(RoundHalfAway(1.0 / v)));
    InverseText(v);
  }

  /** "1/" followed by the nearest whole number to 1/v, for 0 < v < 1. */
  lemma InverseText(v: real)
    requires 0.0 < v < 1.0
    ensures var r := "1/" + IntText(RoundHalfAway(1.0 / v));
      && |r| > 2 && r[..2] == "1/"
      && FloatVal(r[2..]) >= 1.0
      && FloatVal(r[2..]) == FloatVal(r[2..]).Floor as real
      && 1.0 / v - 0.5 < FloatVal(r[2..]) <= 1.0 / v + 0.5
  {
    var q := 1.0 / v;
    var n := RoundHalfAway(q);
    InverseAboveOne(v);
    var r := "1/" + NatText(n);
    assert r[2..] == NatText(n);
    ReadsAs(NatText(n), n);
  }

  lemma InverseAboveOne(v: real)
    requires 0.0 < v < 1.0
    ensures 1.0 / v > 1.0 && RoundHalfAway(1.0 / v) >= 1
  {
    var q := 1.0 / v;
    assert q * v == 1.0;
    assert q > 0.0;
    assert q * v < q;
  }

  /**
   * From one second up the result is `round(v, 2)`: a whole number of
   * hundredths, at least 1, nearest to v, a half rounded up.
   */
  lemma ShutterFromOneSecond(s: string)
    requires Truthy(s) && !Contains(s, "/")
    requires FloatVal(s) >= 1.0
    ensures FormatShutterSpeed(s).Ok?
    ensures var r := FormatShutterSpeed(s).value;
      && Truthy(r)
      && FloatVal(r) >= 1.0
      && InHundredths(FloatVal(r))
      && -0.005 < FloatVal(r) - FloatVal(s) <= 0.005
  {
    var v := FloatVal(s);
    assert FormatShutterSpeed(s) == Ok(DecimalText(RoundCents(v)));
    CentsShutter(v);
  }

  lemma CentsShutter(v: real)
    requires v >= 1.0
    ensures var t := DecimalText(RoundCents(v));
      && Truthy(t)
      && FloatVal(t) >= 1.0
      && InHundredths(FloatVal(t))
      && -0.005 < FloatVal(t) - v <= 0.005
  {
    CentsRead(RoundCents(v));
  }

  /** A number of hundredths prints as text that reads back as it, truthy unless it is zero. */
  lemma CentsRead(d: Decimal)
    requires d.exponent == -2
    ensures FloatVal(DecimalText(d)) == Value(d)
    ensures InHundredths(Value(d))
    ensures Value(d) != 0.0 ==> Truthy(DecimalText(d))
  {
    assert FloatVal(DecimalText(d)) == Value(d) by {
      DecimalTextRoundTrip(d);
    }
    assert Value(d) != 0.0 ==> Truthy(DecimalText(d)) by {
      DecimalTextFalsy(d);
    }
    WholeHundredths(d, Value(d));
  }

  /** A whole number of hundredths. */
  predicate InHundredths(x: real) {
    x * 100.0 == (x * 100.0).Floor as real
  }

  lemma WholeHundredths(d: Decimal, v: real)
    requires d.exponent == -2 && v == Value(d)
    ensures InHundredths(v)
  {
    assert Pow10(2) == 100;
    assert v * 100.0 == d.mantissa as real;
  }

  /** Zero and negative values fall through both branches and come back as the number itself. */
  lemma ShutterNotPositive(s: string)
    requires Truthy(s) && !Contains(s, "/")
    requires FloatVal(s) <= 0.0
    ensures FormatShutterSpeed(s).Ok?
    ensures FloatVal(FormatShutterSpeed(s).value) == FloatVal(s)
  {
    assert FormatShutterSpeed(s) == Ok(DecimalText(ParseFloat(s)));
    DecimalTextRoundTrip(ParseFloat(s));
  }

  /**
   * A value holding '/' goes by its first character: after '0' it is
   * inverted, a DivisionByZeroError when it reads as 0; after another
   * digit it is rounded to hundredths; after a character above '9' it is a
   * TypeError; below '0' it comes back unchanged.
   */
  lemma ShutterFraction(s: string)
    requires '/' in s
    ensures var r := FormatShutterSpeed(s);
      && (s[0] == '0' && FloatVal(s) == 0.0 ==> r == Err(DivisionByZeroError))
      && (s[0] == '0' && FloatVal(s) != 0.0 ==> r == Ok("1/" + IntText(RoundHalfAway(1.0 / FloatVal(s)))))
      && ('1' <= s[0] <= '9' ==> r == Ok(DecimalText(RoundCents(FloatVal(s)))))
      && (s[0] > '9' ==> r == Err(TypeError))
      && (s[0] < '0' ==> r == Ok(s))
  {
    ContainsChar(s, '/');
    var j :| 0 <= j < |s| && s[j] == '/';
    assert s[0] == '0' ==> |s| > 1;
    assert Truthy(s);
    var speed := NonNumeric(s);
    assert IntText(1) == "1" && IntText(0) == "0" by {
      assert NatText(1) == "1" && NatText(0) == "0";
    }
    assert LessThan(speed, 1) <==> s[0] < '1' by {
      assert LexLess(s, "1") <==> s[0] < '1' || (s[0] == '1' && LexLess(s[1..], ""));
    }
    assert GreaterThan(speed, 0) <==> s[0] > '0' || (s[0] == '0' && |s| > 1) by {
      assert LexLess("0", s) <==> s[0] > '0' || (s[0] == '0' && LexLess("", s[1..]));
    }
    if IsDigit(s[0]) {
      DigitLeads(s);
    } else if s[0] > '9' {
      NothingLeads(s);
    }
  }

  /** A string starting with a digit starts with a number. */
  lemma DigitLeads(s: string)
    requires |s| > 0 && IsDigit(s[0])
    ensures LeadingNumeric(s)
  {
    assert Unsigned(s) == s;
    assert DigitRun(s) >= 1;
  }

  /** A string starting above '9' does not. */
  lemma NothingLeads(s: string)
    requires |s| > 0 && s[0] > '9'
    ensures !LeadingNumeric(s)
  {
    assert Unsigned(s) == s;
    assert DigitRun(s) == 0;
  }

  /** Digits followed by '/' read as those digits. */
  lemma DigitsBeforeSlash(ds: string, t: string)
    requires |ds| >= 1 && AllDigits(ds)
    requires |t| > 0 && t[0] == '/'
    ensures FloatVal(ds + t) == DigitsValue(ds) as real
  {
    var s := ds + t;
    assert Unsigned(s) == s by {
      assert s[0] == ds[0];
    }
    SplitBeforeSlash(ds, t);
    assert ExponentOf(t) == 0;
    assert ParseFloat(s) == Decimal(DigitsValue(ds), 0) by {
      assert ds + "" == ds;
    }
    ValueWhole(DigitsValue(ds));
  }

  lemma SplitBeforeSlash(ds: string, t: string)
    requires AllDigits(ds)
    requires |t| > 0 && t[0] == '/'
    ensures SplitNumeral(ds + t) == (ds, "", t)
  {
    DigitRunAfterDigits(ds, t);
    var s := ds + t;
    assert s[..|ds|] == ds && s[|ds|..] == t;
  }

  /**
   * "0/1" divides by zero, "abc/1" is a TypeError, and "1/250", which
   * compares as at least "1", is rounded as the number 1.
   */
  lemma ShutterFractionExamples()
    ensures FormatShutterSpeed("0/1") == Err(DivisionByZeroError)
    ensures FormatShutterSpeed("abc/1") == Err(TypeError)
    ensures FormatShutterSpeed("1/250") == Ok("1")
  {
    ZeroOverOne("0/1");
    ShutterFraction("abc/1");
    RoundedOne("1/250");
  }

  lemma ZeroOverOne(s: string)
    requires s == "0/1"
    ensures FormatShutterSpeed(s) == Err(DivisionByZeroError)
  {
    assert s == "0" + "/1";
    DigitsBeforeSlash("0", "/1");
    assert DigitsValue("0") == 0;
    ShutterFraction(s);
  }

  lemma RoundedOne(s: string)
    requires s == "1/250"
    ensures FormatShutterSpeed(s) == Ok("1")
  {
    assert FloatVal(s) == 1.0 by {
      assert s == "1" + "/250";
      DigitsBeforeSlash("1", "/250");
      assert DigitsValue("1") == 1;
    }
    ShutterFraction(s);
    OneInCents();
  }

  /** `round(1, 2)` prints as "1". */
  lemma OneInCents()
    ensures DecimalText(RoundCents(1.0)) == "1"
  {
    assert Pow10(2) == 100;
    assert RoundCents(1.0) == Decimal(100, -2);
    assert Normalize(Decimal(10, -1)) == Decimal(1, 0);
    assert Normalize(Decimal(100, -2)) == Decimal(1, 0);
    assert NatText(1) == "1";
  }

  /** 1/250 of a second, one second and two seconds, and an absent value. */
  lemma ShutterExamples()
    ensures FormatShutterSpeed("0.004") == Ok("1/250")
    ensures FormatShutterSpeed("2") == Ok("2")
    ensures FormatShutterSpeed("0") == Ok("")
  {
    ShutterQuarterMillisecond("0.004");
    ShutterTwoSeconds();
  }

  lemma ShutterQuarterMillisecond(s: string)
    requires s == "0.004"
    ensures FormatShutterSpeed(s) == Ok("1/250")
  {
    ContainsChar(s, '/');
    assert Truthy(s) && '/' !in s;
    ReadsQuarterMillisecond(s);
    var v := FloatVal(s);
    assert 1.0 / v == 250.0 by {
      assert v * 250.0 == 1.0;
    }
    assert RoundHalfAway(1.0 / v) == 250;
    assert FormatShutterSpeed(s) == Ok("1/" + IntText(250));
    TwoHundredFifty();
    assert "1/" + "250" == "1/250";
  }

  lemma ReadsQuarterMillisecond(s: string)
    requires s == "0.004"
    ensures FloatVal(s) == 4.0 / 1000.0
  {
    ParseQuarterMillisecond(s);
    assert Pow10(3) == 1000;
  }

  lemma ParseQuarterMillisecond(s: string)
    requires s == "0.004"
    ensures ParseFloat(s) == Decimal(4, -3)
  {
    var sign, ds, fs := "", "0", "004";
    assert sign + (ds + "." + fs) == s;
    assert ds + fs == "0004";
    FourThousandths(ds + fs);
    ParsePointed(sign, ds, fs);
  }

  lemma FourThousandths(ds: string)
    requires ds == "0004"
    ensures DigitsValue(ds) == 4
  {
    var d1, d2, d3 := ds[..1], ds[..2], ds[..3];
    assert d1 == "0" && d2[..1] == d1 && d3[..2] == d2 && ds[..3] == d3;
    assert DigitsValue(d1) == 0;
    assert DigitsValue(d2) == 0;
    assert DigitsValue(d3) == 0;
  }

  lemma TwoHundredFifty()
    ensures IntText(250) == "250"
  {
    assert NatText(2) == "2";
    assert NatText(25) == "25";
  }

  lemma ShutterTwoSeconds()
    ensures FormatShutterSpeed("2") == Ok("2")
  {
    ContainsChar("2", '/');
    DigitsRead("2");
    assert Pow10(2) == 100;
    var d := RoundCents(2.0);
    assert d == Decimal(200, -2);
    assert Normalize(Decimal(20, -1)) == Decimal(2, 0);
    assert Normalize(d) == Decimal(2, 0);
    assert NatText(2) == "2";
  }

  /** `convert_to_float`: "a/b" divides; anything else is read as a number. */
  function ConvertToFloat(fraction: string): (r: Result<real>)
    ensures r.Err? ==> r.error == DivisionByZeroError
  {
    if Falsy(fraction) then Ok(0.0)
    else
      var parts := Explode("/", fraction);
      if |parts| == 2 then
        var denominator := FloatVal(parts[1]);
        if denominator == 0.0 then Err(DivisionByZeroError)
        else Ok(FloatVal(parts[0]) / denominator)
      else Ok(FloatVal(fraction))
  }

  /** Without a '/', the empty-string guard and the fallback agree with `(float)`. */
  lemma ConvertPlain(s: string)
    requires '/' !in s
    ensures ConvertToFloat(s) == Ok(FloatVal(s))
  {
    if Falsy(s) {
      FalsyTextsReadZero();
    } else {
      CharFreeSepFree("/", s, 0);
      ExplodeSepFreeLast("/", s);
    }
  }

  /** "n/d" is the quotient of the two numbers, and an error when d reads as zero. */
  lemma ConvertFraction(n: string, d: string)
    requires '/' !in n && '/' !in d
    ensures FloatVal(d) == 0.0 ==> ConvertToFloat(n + "/" + d) == Err(DivisionByZeroError)
    ensures FloatVal(d) != 0.0 ==> ConvertToFloat(n + "/" + d) == Ok(FloatVal(n) / FloatVal(d))
  {
    var s := n + "/" + d;
    assert s[|n|] == '/';
    CharFreeSepFree("/", n, 0);
    CharFreeSepFree("/", d, 0);
    assert Implode("/", [n, d]) == n + "/" + Implode("/", [d]);
    ExplodeImplode("/", [n, d]);
  }

  /** The hemispheres whose coordinates are negative: exactly "W" and "S". */
  predicate Negative(hemisphere: string) {
    hemisphere == "W" || hemisphere == "S"
  }

  /** `$value * $flip`, with `$flip` -1 for a negative hemisphere and 1 otherwise. */
  function Flip(value: real, hemisphere: string): real {
    if Negative(hemisphere) then -value else value
  }

  /** Component `i` of a split coordinate; a missing one counts as 0. */
  function Component(parts: seq<string>, i: nat): Result<real> {
    if |parts| > i then ConvertToFloat(parts[i]) else Ok(0.0)
  }

  /** degrees + minutes/60 + seconds/3600, or the first error among them. */
  function Sexagesimal(degrees: Result<real>, minutes: Result<real>, seconds: Result<real>): Result<real> {
    var d :- degrees;
    var m :- minutes;
    var s :- seconds;
    Ok(d + m / 60.0 + s / 3600.0)
  }

  /** The magnitude of a coordinate, from its first three components. */
  function Magnitude(parts: seq<string>): Result<real> {
    Sexagesimal(Component(parts, 0), Component(parts, 1), Component(parts, 2))
  }

  /** `dms_to_decimal`. */
  function DmsToDecimal(dms: string, hemisphere: string): (r: Result<real>)
    ensures Falsy(dms) || Falsy(hemisphere) ==> r == Ok(0.0)
  {
    if Falsy(dms) || Falsy(hemisphere) then Ok(0.0)
    else
      var magnitude :- Magnitude(Explode(", ", dms));
      Ok(Flip(magnitude, hemisphere))
  }

  function Flipped(r: Result<real>, hemisphere: string): Result<real> {
    if r.Ok? then Ok(Flip(r.value, hemisphere)) else r
  }

  function Negated(r: Result<real>): Result<real> {
    if r.Ok? then Ok(-r.value) else r
  }

  /** South and west are the negation of north; any other hemisphere, lower case included, is north. */
  lemma DmsHemisphere(dms: string, hemisphere: string)
    ensures DmsToDecimal(dms, "S") == Negated(DmsToDecimal(dms, "N"))
    ensures DmsToDecimal(dms, "W") == Negated(DmsToDecimal(dms, "N"))
    ensures Truthy(hemisphere) && hemisphere != "W" && hemisphere != "S" ==>
      DmsToDecimal(dms, hemisphere) == DmsToDecimal(dms, "N")
  {
    DmsOpposite(dms, "S", "N");
    DmsOpposite(dms, "W", "N");
    if Truthy(hemisphere) && hemisphere != "W" && hemisphere != "S" {
      DmsSameSide(dms, hemisphere, "N");
    }
  }

  lemma DmsOpposite(dms: string, negative: string, positive: string)
    requires Negative(negative) && Truthy(positive) && !Negative(positive)
    ensures DmsToDecimal(dms, negative) == Negated(DmsToDecimal(dms, positive))
  {
    if Truthy(dms) {
      var parts := Explode(", ", dms);
      var m := Magnitude(parts);
      assert DmsToDecimal(dms, negative) == Flipped(m, negative) by {
        DmsOfSplit(dms, negative, parts);
      }
      assert DmsToDecimal(dms, positive) == Flipped(m, positive) by {
        DmsOfSplit(dms, positive, parts);
      }
      FlipOpposite(m, negative, positive);
    }
  }

  lemma FlipOpposite(m: Result<real>, negative: string, positive: string)
    requires Negative(negative) && !Negative(positive)
    ensures Flipped(m, negative) == Negated(Flipped(m, positive))
  {
  }

  lemma DmsSameSide(dms: string, h1: string, h2: string)
    requires Truthy(h1) && !Negative(h1) && Truthy(h2) && !Negative(h2)
    ensures DmsToDecimal(dms, h1) == DmsToDecimal(dms, h2)
  {
    if Truthy(dms) {
      var parts := Explode(", ", dms);
      var m := Magnitude(parts);
      assert DmsToDecimal(dms, h1) == Flipped(m, h1) by {
        DmsOfSplit(dms, h1, parts);
      }
      assert DmsToDecimal(dms, h2) == Flipped(m, h2) by {
        DmsOfSplit(dms, h2, parts);
      }
      FlipSame(m, h1, h2);
    }
  }

  lemma FlipSame(m: Result<real>, h1: string, h2: string)
    requires !Negative(h1) && !Negative(h2)
    ensures Flipped(m, h1) == Flipped(m, h2)
  {
  }

  lemma CommaFreeSepFree(parts: seq<string>)
    requires forall i | 0 <= i < |parts| :: ',' !in parts[i]
    ensures forall i | 0 <= i < |parts| :: SepFree(", ", parts[i])
  {
    forall i | 0 <= i < |parts| ensures SepFree(", ", parts[i]) {
      CharFreeSepFree(", ", parts[i], 0);
    }
  }

  lemma ImplodeLeading(sep: string, parts: seq<string>)
    requires |parts| >= 2
    ensures Implode(sep, parts) == parts[0] + sep + Implode(sep, parts[1..])
  {
  }

  lemma MagnitudeFirstThree(parts: seq<string>)
    requires |parts| >= 3
    ensures Magnitude(parts) == Magnitude(parts[..3])
  {
    assert Component(parts, 0) == Component(parts[..3], 0);
    assert Component(parts, 1) == Component(parts[..3], 1);
    assert Component(parts, 2) == Component(parts[..3], 2);
  }

  /** A coordinate of at least two components, none holding a comma, splits back into them. */
  lemma SplitsIntoComponents(parts: seq<string>)
    requires |parts| >= 2
    requires forall i | 0 <= i < |parts| :: ',' !in parts[i]
    ensures Truthy(Implode(", ", parts))
    ensures Explode(", ", Implode(", ", parts)) == parts
  {
    CommaFreeSepFree(parts);
    ExplodeImplode(", ", parts);
    var whole := Implode(", ", parts);
    ImplodeLeading(", ", parts);
    assert whole[|parts[0]|] == ',';
  }

  /** Components after the third are ignored. */
  lemma DmsExtraPartsIgnored(parts: seq<string>, hemisphere: string)
    requires |parts| >= 3
    requires forall i | 0 <= i < |parts| :: ',' !in parts[i]
    ensures DmsToDecimal(Implode(", ", parts), hemisphere) == DmsToDecimal(Implode(", ", parts[..3]), hemisphere)
  {
    var whole := Implode(", ", parts);
    var first := Implode(", ", parts[..3]);
    SplitsIntoComponents(parts);
    SplitsIntoComponents(parts[..3]);
    MagnitudeFirstThree(parts);
    DmsOfSplit(whole, hemisphere, parts);
    DmsOfSplit(first, hemisphere, parts[..3]);
  }

  lemma DmsOfSplit(dms: string, hemisphere: string, parts: seq<string>)
    requires Truthy(dms) && Explode(", ", dms) == parts
    ensures DmsToDecimal(dms, hemisphere)
         == if Falsy(hemisphere) then Ok(0.0) else Flipped(Magnitude(parts), hemisphere)
  {
  }

  /** A missing minutes or seconds component counts as "0". */
  lemma DmsMissingPartsAreZero(parts: seq<string>, hemisphere: string)
    requires 1 <= |parts| <= 2
    requires forall i | 0 <= i < |parts| :: ',' !in parts[i]
    ensures var padded := parts + (if |parts| == 1 then ["0", "0"] else ["0"]);
      DmsToDecimal(Implode(", ", parts), hemisphere) == DmsToDecimal(Implode(", ", padded), hemisphere)
  {
    var padded := parts + (if |parts| == 1 then ["0", "0"] else ["0"]);
    SplitsIntoComponents(padded);
    DmsOfSplit(Implode(", ", padded), hemisphere, padded);
    ConvertPlain("0");
    FalsyTextsReadZero();
    assert Magnitude(padded) == Magnitude(parts) by {
      assert Component(padded, 0) == Component(parts, 0);
      assert Component(padded, 1) == Component(parts, 1);
      assert Component(padded, 2) == Component(parts, 2);
    }
    if |parts| == 2 {
      SplitsIntoComponents(parts);
      DmsOfSplit(Implode(", ", parts), hemisphere, parts);
    } else if Truthy(parts[0]) {
      CharFreeSepFree(", ", parts[0], 0);
      ExplodeSepFreeLast(", ", parts[0]);
      DmsOfSplit(parts[0], hemisphere, parts);
    } else {
      ConvertPlain(parts[0]);
    }
  }

  /** "n/1" reads as the whole number n. */
  lemma WholeFraction(digits: string)
    requires |digits| >= 1 && AllDigits(digits)
    ensures ConvertToFloat(digits + "/1") == Ok(DigitsValue(digits) as real)
  {
    OverOne(digits, "1");
    assert digits + "/" + "1" == digits + "/1";
  }

  /** A run of digits over a denominator that spells one. */
  lemma OverOne(digits: string, one: string)
    requires |digits| >= 1 && AllDigits(digits)
    requires one == "1"
    ensures ConvertToFloat(digits + "/" + one) == Ok(DigitsValue(digits) as real)
  {
    assert '/' !in one by {
      assert one[0] == '1' && |one| == 1;
    }
    assert '/' !in digits by {
      assert forall i | 0 <= i < |digits| :: digits[i] != '/';
    }
    assert FloatVal(one) == 1.0 by {
      assert AllDigits(one) by {
        assert one[0] == '1';
      }
      DigitsRead(one);
      assert DigitsValue(one) == 1;
    }
    DigitsRead(digits);
    ConvertFraction(digits, one);
    DivideByOne(FloatVal(digits), FloatVal(one));
  }

  lemma DivideByOne(x: real, y: real)
    requires y == 1.0
    ensures x / y == x
  {
  }

  /** Three comma-free components that convert without error give degrees + minutes/60 + seconds/3600. */
  lemma DmsOfThree(parts: seq<string>, hemisphere: string, degrees: real, minutes: real, seconds: real)
    requires |parts| == 3
    requires forall i | 0 <= i < |parts| :: ',' !in parts[i]
    requires ConvertToFloat(parts[0]) == Ok(degrees)
    requires ConvertToFloat(parts[1]) == Ok(minutes)
    requires ConvertToFloat(parts[2]) == Ok(seconds)
    requires Truthy(hemisphere)
    ensures DmsToDecimal(Implode(", ", parts), hemisphere)
         == Ok(Flip(degrees + minutes / 60.0 + seconds / 3600.0, hemisphere))
  {
    SplitsIntoComponents(parts);
    DmsOfSplit(Implode(", ", parts), hemisphere, parts);
    MagnitudeOfThree(parts, degrees, minutes, seconds);
  }

  lemma MagnitudeOfThree(parts: seq<string>, degrees: real, minutes: real, seconds: real)
    requires |parts| == 3
    requires ConvertToFloat(parts[0]) == Ok(degrees)
    requires ConvertToFloat(parts[1]) == Ok(minutes)
    requires ConvertToFloat(parts[2]) == Ok(seconds)
    ensures Magnitude(parts) == Ok(degrees + minutes / 60.0 + seconds / 3600.0)
  {
    assert Component(parts, 0) == Ok(degrees) && Component(parts, 1) == Ok(minutes) && Component(parts, 2) == Ok(seconds);
    SexagesimalOk(degrees, minutes, seconds);
  }

  lemma SexagesimalOk(degrees: real, minutes: real, seconds: real)
    ensures Sexagesimal(Ok(degrees), Ok(minutes), Ok(seconds)) == Ok(degrees + minutes / 60.0 + seconds / 3600.0)
  {
  }

  lemma ReadsAs(s: string, n: nat)
    requires s == NatText(n)
    ensures FloatVal(s) == n as real
  {
    DigitsRead(s);
  }

  /** The aperture prefix exactly as the source file spells it: the bytes of "ƒ/" read as Windows-1252. */
  const GalleryAperturePrefix := "\U{00C6}\U{2019}/"

  /**
   * The shutter segment: the formatted speed and "s" when both the raw and
   * the formatted value are truthy, or the error formatting raised.
   */
  function GalleryShutterSegment(imageMeta: map<string, string>): (r: Result<string>)
    ensures var raw := Lookup(imageMeta, "shutter_speed");
      && (Falsy(raw) ==> r == Ok(""))
      && (r.Err? ==> r == FormatShutterSpeed(raw))
      && (r.Ok? && r.value != "" ==> FormatShutterSpeed(raw).Ok? && r.value == FormatShutterSpeed(raw).value + "s")
  {
    var raw := Lookup(imageMeta, "shutter_speed");
    var shutter :- if Truthy(raw) then FormatShutterSpeed(raw) else Ok("");
    Ok(if Truthy(shutter) then shutter + "s" else "")
  }

  /** A positive shutter speed without '/' always gives its segment. */
  lemma ShutterSegmentPresent(imageMeta: map<string, string>)
    requires var raw := Lookup(imageMeta, "shutter_speed");
      Truthy(raw) && !Contains(raw, "/") && FloatVal(raw) > 0.0
    ensures var raw := Lookup(imageMeta, "shutter_speed");
      GalleryShutterSegment(imageMeta) == Ok(FormatShutterSpeed(raw).value + "s")
  {
    var raw := Lookup(imageMeta, "shutter_speed");
    if FloatVal(raw) < 1.0 {
      ShutterBelowOneSecond(raw);
    } else {
      ShutterFromOneSecond(raw);
    }
  }

  /**
   * `format_exif_string`: an error exactly when formatting the shutter
   * speed raises one; otherwise never empty, and always led by the camera
   * segment.
   */
  function FormatExifString(ext: map<string, string>, imageMeta: map<string, string>): (r: Result<string>)
    ensures r.Err? <==> GalleryShutterSegment(imageMeta).Err?
    ensures r.Ok? ==> r.value != ""
    ensures r.Ok? ==> var camera := Lookup(ext, "make") + " " + Lookup(imageMeta, "camera");
      |camera| <= |r.value| && r.value[..|camera|] == camera
  {
    var shutter :- GalleryShutterSegment(imageMeta);
    Ok(Caption(CaptionSegments(ext, imageMeta, GalleryAperturePrefix, shutter)))
  }

  /** The caption of a record holding only a camera model and an ISO value. */
  lemma CaptionExample()
    ensures FormatExifString(map[], map["camera" := "Canon 5D", "iso" := "400"])
         == Ok(" Canon 5D" + " | " + "ISO400")
  {
    var imageMeta := map["camera" := "Canon 5D", "iso" := "400"];
    ExampleSegments(imageMeta);
    var segments := [" Canon 5D", "", "", "", "", "ISO400", ""];
    ExampleKept(segments);
    var kept := [" Canon 5D", "ISO400"];
    ImplodeLeading(" | ", kept);
    assert kept[1..] == ["ISO400"];
  }

  lemma ExampleSegments(imageMeta: map<string, string>)
    requires imageMeta == map["camera" := "Canon 5D", "iso" := "400"]
    ensures GalleryShutterSegment(imageMeta) == Ok("")
    ensures CaptionSegments(map[], imageMeta, GalleryAperturePrefix, "")
         == [" Canon 5D", "", "", "", "", "ISO400", ""]
  {
    assert |"focal_length"| != |"camera"| && |"focal_length"| != |"iso"|;
    assert |"aperture"| != |"camera"| && |"aperture"| != |"iso"|;
    assert |"shutter_speed"| != |"camera"| && |"shutter_speed"| != |"iso"|;
    assert "iso" != "camera";
    assert Lookup(imageMeta, "camera") == "Canon 5D";
    assert Lookup(imageMeta, "iso") == "400";
    assert Lookup(imageMeta, "focal_length") == "";
    assert Lookup(imageMeta, "aperture") == "";
    assert Lookup(imageMeta, "shutter_speed") == "";
    assert Lookup(map[], "make") == "" && Lookup(map[], "lens") == "" && Lookup(map[], "software") == "";
    assert "" + " " + "Canon 5D" == " Canon 5D";
    assert "ISO" + "400" == "ISO400";
  }

  lemma ExampleKept(segments: seq<string>)
    requires segments == [" Canon 5D", "", "", "", "", "ISO400", ""]
    ensures KeepTruthy(segments) == [" Canon 5D", "ISO400"]
  {
    KeepTwo(" Canon 5D", "ISO400", segments);
  }

  /** Two truthy segments among five empty ones are what `array_filter` keeps. */
  lemma KeepTwo(a: string, b: string, segments: seq<string>)
    requires Truthy(a) && Truthy(b)
    requires segments == [a, "", "", "", "", b, ""]
    ensures KeepTruthy(segments) == [a, b]
  {
    assert KeepTruthy(segments[6..]) == [];
    assert KeepTruthy(segments[5..]) == [b] + KeepTruthy(segments[6..]);
    assert KeepTruthy(segments[4..]) == KeepTruthy(segments[5..]);
    assert KeepTruthy(segments[3..]) == KeepTruthy(segments[4..]);
    assert KeepTruthy(segments[2..]) == KeepTruthy(segments[3..]);
    assert KeepTruthy(segments[1..]) == KeepTruthy(segments[2..]);
    assert KeepTruthy(segments) == [a] + KeepTruthy(segments[1..]);
  }
}
