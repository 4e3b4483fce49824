/**
 * Python's numeric conversions as the validators use them: `float(str)`,
 * `int(str)`, `int(float)` (truncation) and `round(float)` (half to even).
 * Floating-point numbers are modelled as exact reals plus the three
 * non-finite values Python's `float` can hold.
 */
module PyNum {
  import opened Wrappers
  import opened PyStr

  /** A Python `float`: a finite value, one of the two infinities, or NaN. */
  datatype Float = Finite(value: real) | PosInf | NegInf | NaN

  /**
   * 2^1024 - 2^970, the least magnitude that rounds past the largest finite
   * double: `float(n)` of an integer at least this large raises OverflowError.
   */
  const FloatOverflowBound: int := 179769313486231580793728971405303415079934132710037826936173778980444968292764750946649017977587207096330286416692887910946555547851940402630657488671505820681908902000708383676273854845817711531764475730270069855571366959622842914819860834936475292719074168444365510704342711559699508093042880177904174497792

  /** `float(n)` of the integer `n` returns a finite double instead of raising OverflowError. */
  predicate FitsFloat(n: int) {
    -FloatOverflowBound < n < FloatOverflowBound
  }

  /** `a < b` on floats: every comparison with NaN is false. */
  predicate FloatLess(a: Float, b: Float) {
    match (a, b)
    case (Finite(x), Finite(y)) => x < y
    case (NegInf, Finite(_)) => true
    case (NegInf, PosInf) => true
    case (Finite(_), PosInf) => true
    case _ => false
  }

  predicate IsDigit(c: char) {
    '0' <= c <= '9'
  }

  predicate AllDigits(s: string) {
    forall k :: 0 <= k < |s| ==> IsDigit(s[k])
  }

  /** The value of a string of decimal digits, most significant first. */
  function DigitsValue(s: string): nat
    requires AllDigits(s)
  {
    if s == [] then 0 else DigitsValue(s[..|s| - 1]) * 10 + (s[|s| - 1] as int - '0' as int)
  }

  function Pow10(e: nat): (p: nat)
    ensures p >= 1
  {
    if e == 0 then 1 else 10 * Pow10(e - 1)
  }

  /** An optional leading `+` or `-`: whether it was `-`, and the rest. */
  function SplitSign(s: string): (r: (bool, string))
    ensures r.1 == if |s| > 0 && (s[0] == '+' || s[0] == '-') then s[1..] else s
    ensures r.0 <==> |s| > 0 && s[0] == '-'
  {
    if |s| > 0 && (s[0] == '+' || s[0] == '-') then (s[0] == '-', s[1..]) else (false, s)
  }

  /** The index of the first character of `s` that is in `cs`, or `|s|` if there is none. */
  function FirstIndexIn(s: string, cs: seq<char>): (k: nat)
    ensures k <= |s|
    ensures k < |s| ==> s[k] in cs
    ensures forall i :: 0 <= i < k ==> s[i] !in cs
  {
    if s == [] then 0 else if s[0] in cs then 0 else 1 + FirstIndexIn(s[1..], cs)
  }

  /** `int(s)` for a string: optional surrounding whitespace, an optional sign, one or more decimal digits. */
  function ParseInt(s: string): Option<int> {
    var (negative, digits) := SplitSign(Strip(s));
    if digits != [] && AllDigits(digits) then
      var v: int := DigitsValue(digits);
      Some(if negative then -v else v)
    else
      None
  }

  /**
   * An unsigned decimal literal as `float` reads it: digits with an optional
   * fraction (at least one digit in all), then an optional exponent `e`/`E`
   * with optional sign and at least one digit.
   */
  function ParseDecimal(s: string): Option<real> {
    var k := FirstIndexIn(s, "eE");
    var mantissa := s[..k];
    var p := FirstIndexIn(mantissa, ".");
    var intPart := mantissa[..p];
    var fracPart := if p < |mantissa| then mantissa[p + 1..] else [];
    if !(AllDigits(intPart) && AllDigits(fracPart) && |intPart| + |fracPart| > 0) then None
    else
      var m := DigitsValue(intPart) as real + DigitsValue(fracPart) as real / Pow10(|fracPart|) as real;
      if k == |s| then Some(m)
      else
        var (negativeExp, expDigits) := SplitSign(s[k + 1..]);
        if expDigits == [] || !AllDigits(expDigits) then None
        else if negativeExp then Some(m / Pow10(DigitsValue(expDigits)) as real)
        else Some(m * Pow10(DigitsValue(expDigits)) as real)
  }

  /** `float(s)` for a string: optional whitespace and sign, then `inf`, `infinity` or `nan` in any case, or a decimal literal. */
  function ParseFloat(s: string): Option<Float> {
    var (negative, body) := SplitSign(Strip(s));
    ParseUnsignedFloat(negative, body)
  }

  /** The part of `float(s)` after the sign: `body` read as a float, negated if `negative`. */
  function ParseUnsignedFloat(negative: bool, body: string): Option<Float> {
    var word := Lower(body);
    if word == "inf" || word == "infinity" then Some(if negative then NegInf else PosInf)
    else if word == "nan" then Some(NaN)
    else match ParseDecimal(body)
      case None => None
      case Some(m) => Some(Finite(if negative then -m else m))
  }

  /** `float("nan")` is NaN. */
  lemma ParseFloatOfNan()
    ensures ParseFloat("nan") == Some(NaN)
  {
    assert TrimLeft("nan") == "nan";
    assert TrimRight("nan") == "nan";
    assert SplitSign("nan") == (false, "nan");
    assert Lower("nan") == "nan";
  }

  /** `int(x)` for a finite float: rounds toward zero. */
  function Trunc(x: real): (n: int)
    ensures 0.0 <= x ==> 0 <= n && n as real <= x < n as real + 1.0
    ensures x < 0.0 ==> n <= 0 && n as real - 1.0 < x <= n as real
  {
    if x >= 0.0 then x.Floor else -((-x).Floor)
  }

  /** `round(x)`: the nearest integer, and the even one of the two on a tie. */
  function RoundHalfEven(x: real): (n: int)
    ensures -0.5 <= n as real - x <= 0.5
    ensures (n as real - x == 0.5 || x - n as real == 0.5) ==> n % 2 == 0
  {
    var f := x.Floor;
    var frac := x - f as real;
    if frac < 0.5 then f
    else if frac > 0.5 then f + 1
    else if f % 2 == 0 then f
    else f + 1
  }

  /** `round` is monotone. */
  lemma RoundMonotone(x: real, y: real)
    requires x <= y
    ensures RoundHalfEven(x) <= RoundHalfEven(y)
  {
  }

  /** `round` leaves an integer unchanged. */
  lemma RoundOfInteger(n: int)
    ensures RoundHalfEven(n as real) == n
  {
  }

  function DigitChar(d: nat): (c: char)
    requires d < 10
    ensures IsDigit(c) && c as int - '0' as int == d
  {
    ('0' as int + d) as char
  }

  /** `str(n)` for a natural number; reading it back gives `n`. */
  function NatToString(n: nat): (s: string)
    ensures s != [] && AllDigits(s)
    ensures DigitsValue(s) == n
  {
    if n < 10 then [DigitChar(n)]
    else
      var s := NatToString(n / 10) + [DigitChar(n % 10)];
      assert s[..|s| - 1] == NatToString(n / 10);
      s
  }

  /** `str(i)` for an integer. */
  function IntToString(i: int): (s: string)
    ensures s != [] && !IsSpace(s[0]) && !IsSpace(s[|s| - 1])
  {
    if i < 0 then "-" + NatToString(-i) else NatToString(i)
  }

  lemma StripOfIntToString(i: int)
    ensures Strip(IntToString(i)) == IntToString(i)
  {
    var s := IntToString(i);
    assert TrimLeft(s) == s;
  }

  /** `int(str(i)) == i`. */
  lemma ParseIntOfIntToString(i: int)
    ensures ParseInt(IntToString(i)) == Some(i)
  {
    StripOfIntToString(i);
    if i < 0 {
      assert IntToString(i)[1..] == NatToString(-i);
    }
  }

  /** A plain digit string is read by `float` as the integer it spells. */
  lemma ParseDecimalOfDigits(body: string)
    requires body != [] && AllDigits(body)
    ensures ParseDecimal(body) == Some(DigitsValue(body) as real)
  {
    NoMarkAmongDigits(body, "eE");
    NoMarkAmongDigits(body, ".");
    assert body[..|body|] == body;
  }

  lemma {:induction false} NoMarkAmongDigits(s: string, marks: seq<char>)
    requires AllDigits(s)
    requires forall c :: c in marks ==> !IsDigit(c)
    ensures FirstIndexIn(s, marks) == |s|
  {
    if s != [] {
      NoMarkAmongDigits(s[1..], marks);
    }
  }

  /** A digit string is not one of the words `float` reads as infinity or NaN. */
  lemma DigitsAreNotSpecialWords(body: string)
    requires body != [] && AllDigits(body)
    ensures Lower(body) != "inf" && Lower(body) != "infinity" && Lower(body) != "nan"
  {
    assert Lower(body)[0] == body[0];
  }

  /** `str(i)` is a sign for negative `i` followed by the digits of `|i|`. */
  lemma SignOfIntToString(i: int)
    ensures SplitSign(Strip(IntToString(i))) == (i < 0, NatToString(if i < 0 then -i else i))
  {
    StripOfIntToString(i);
    if i < 0 {
      assert IntToString(i)[1..] == NatToString(-i);
    }
  }

  lemma ParseUnsignedFloatOfDigits(negative: bool, n: nat)
    ensures ParseUnsignedFloat(negative, NatToString(n)) == Some(Finite(if negative then -(n as real) else n as real))
  {
    DigitsAreNotSpecialWords(NatToString(n));
    ParseDecimalOfDigits(NatToString(n));
  }

  /** `float(str(i)) == i`. */
  lemma ParseFloatOfIntToString(i: int)
    ensures ParseFloat(IntToString(i)) == Some(Finite(i as real))
  {
    SignOfIntToString(i);
    ParseUnsignedFloatOfDigits(i < 0, if i < 0 then -i else i);
  }

  /** Every string `int()` accepts, `float()` accepts too, with the same value. */
  lemma ParseFloatAgreesWithParseInt(s: string)
    ensures ParseInt(s).Some? ==> ParseFloat(s) == Some(Finite(ParseInt(s).value as real))
  {
    var (negative, digits) := SplitSign(Strip(s));
    if digits != [] && AllDigits(digits) {
      DigitsAreNotSpecialWords(digits);
      ParseDecimalOfDigits(digits);
    }
  }
}
