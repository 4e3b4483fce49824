/**
 * Request values as Python holds them after JSON decoding, and the
 * conversions `bool(v)`, `float(v)`, `int(v)` and `dict.get` on them.
 */
module PyValue {
  import opened Wrappers
  import opened PyNum

  /**
   * A decoded JSON value. A JSON number without fraction or exponent decodes
   * to a Python `int` of any size; any other number to a `float`.
   */
  datatype Value =
    | Int(whole: int)
    | Num(number: Float)
    | Text(text: string)
    | Bool(flag: bool)
    | Null
    | List(items: seq<Value>)
    | Dict(entries: map<string, Value>)

  /** `bool(v)`: false exactly for None, False, zero, and the empty string, list and dict. */
  predicate Truthy(v: Value)
    ensures !Truthy(v) <==> v in {Null, Bool(false), Int(0), Num(Finite(0.0)), Text([]), List([]), Dict(map[])}
  {
    match v
    case Int(n) => n != 0
    case Num(f) => f != Finite(0.0)
    case Text(s) => s != []
    case Bool(b) => b
    case Null => false
    case List(xs) => xs != []
    case Dict(m) => m != map[]
  }

  /** `d.get(key)` on a dict: the entry, or None when the key is missing. */
  function Get(d: Value, key: string): (r: Value)
    requires d.Dict?
    ensures key in d.entries ==> r == d.entries[key]
    ensures key !in d.entries ==> r == Null
  {
    if key in d.entries then d.entries[key] else Null
  }

  /** What `float(v)` does: return a float, raise ValueError/TypeError, or raise OverflowError. */
  datatype FloatConversion = AsFloat(value: Float) | NotAFloat | FloatOverflow

  /**
   * `float(v)`. Only an integer too large for a double overflows; a string
   * or a float never does, and an integer that fits converts exactly.
   */
  function ToFloat(v: Value): (r: FloatConversion)
    ensures r.FloatOverflow? <==> v.Int? && !FitsFloat(v.whole)
    ensures v.Int? && FitsFloat(v.whole) ==> r == AsFloat(Finite(v.whole as real))
    ensures r.NotAFloat? <==> v.Null? || v.List? || v.Dict? || (v.Text? && ParseFloat(v.text).None?)
    ensures v.Text? && ParseFloat(v.text).Some? ==> r == AsFloat(ParseFloat(v.text).value)
  {
    match v
    case Int(n) => if FitsFloat(n) then AsFloat(Finite(n as real)) else FloatOverflow
    case Num(f) => AsFloat(f)
    case Bool(b) => AsFloat(Finite(if b then 1.0 else 0.0))
    case Text(s) => (match ParseFloat(s) case Some(f) => AsFloat(f) case None => NotAFloat)
    case _ => NotAFloat
  }

  /** What `int(v)` does: return an integer, raise ValueError/TypeError, or raise OverflowError. */
  datatype IntConversion = Converted(value: int) | ValueOrTypeError | Overflow

  /**
   * `int(v)`: an integer as it is, truncation toward zero for a finite float,
   * OverflowError for an infinity and ValueError for NaN.
   */
  function ToInt(v: Value): (r: IntConversion)
    ensures r.Overflow? <==> v == Num(PosInf) || v == Num(NegInf)
    ensures v.Int? ==> r == Converted(v.whole)
    ensures v.Num? && v.number.Finite? ==> r == Converted(Trunc(v.number.value))
    ensures r.ValueOrTypeError? <==>
      v == Num(NaN) || v.Null? || v.List? || v.Dict? || (v.Text? && ParseInt(v.text).None?)
  {
    match v
    case Int(n) => Converted(n)
    case Num(Finite(x)) => Converted(Trunc(x))
    case Num(NaN) => ValueOrTypeError
    case Num(_) => Overflow
    case Bool(b) => Converted(if b then 1 else 0)
    case Text(s) => (match ParseInt(s) case Some(n) => Converted(n) case None => ValueOrTypeError)
    case _ => ValueOrTypeError
  }
}
