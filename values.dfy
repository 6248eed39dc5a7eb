/** Request input values, as the framework hands them to validation, and the
    PHP coercions (`is_numeric`, `FILTER_VALIDATE_INT`, `in_array` with strict
    comparison, the `(bool)` cast) that the validation rules and the database
    apply to them. */
module Values {
  import opened Text

  datatype Option<T> = None | Some(value: T)

  /** One request field: JSON or form data after decoding. */
  datatype Value =
    | Null
    | Bool(b: bool)
    | Int(i: int)
    | Num(r: real)
    | Str(s: string)
    | Arr(items: seq<Value>)

  /** Request input: a field is present exactly when it is a key. */
  type Input = map<string, Value>

  const MinInt64: int := -0x8000_0000_0000_0000
  const MaxInt64: int := 0x7FFF_FFFF_FFFF_FFFF

  /** The characters PHP's `trim` removes by default. */
  predicate IsTrimmed(c: char) {
    c == ' ' || c == '\t' || c == '\n' || c == '\r' || c == '\0' || c == '\U{0B}'
  }

  /** `trim($s) === ''`. */
  predicate IsBlank(s: string) {
    forall i :: 0 <= i < |s| ==> IsTrimmed(s[i])
  }

  /** The framework's `required` test: not null, not a blank string, not an empty array. */
  predicate Filled(v: Value) {
    match v
    case Null => false
    case Str(s) => !IsBlank(s)
    case Arr(xs) => |xs| > 0
    case _ => true
  }

  /** A decimal integer numeral as `FILTER_VALIDATE_INT` accepts it: an optional
      sign, then `0` or digits without a leading zero, within 64 bits. */
  function ParseInteger(s: string): (r: Option<int>)
    ensures r.Some? ==> |s| >= 1 && MinInt64 <= r.value <= MaxInt64
  {
    var negative := |s| > 0 && s[0] == '-';
    var body := if |s| > 0 && (s[0] == '-' || s[0] == '+') then s[1..] else s;
    if |body| == 0 || !AllDigits(body) || (|body| > 1 && body[0] == '0') then None
    else
      var v: int := if negative then -(DigitsValue(body) as int) else DigitsValue(body);
      if MinInt64 <= v <= MaxInt64 then Some(v) else None
  }

  /** The decimal numeral of an integer, with a minus sign when negative. */
  function IntToString(i: int): (s: string)
    ensures |s| >= 1
  {
    if i < 0 then "-" + NatToString(-i) else NatToString(i)
  }

  /** Every 64-bit integer's numeral is an accepted integer string for that integer. */
  lemma IntegerStringRoundTrip(i: int)
    requires MinInt64 <= i <= MaxInt64
    ensures ParseInteger(IntToString(i)) == Some(i)
  {
    var s := IntToString(i);
    var body := NatToString(if i < 0 then -i else i);
    NatToStringRoundTrip(if i < 0 then -i else i);
    if i < 0 {
      assert s[0] == '-' && s[1..] == body;
    } else {
      assert s == body && IsDigit(s[0]);
    }
  }

  /** The position of the first '.' in `s`, or |s| when there is none. */
  function DotIndex(s: string): (k: nat)
    ensures k <= |s|
    ensures k < |s| ==> s[k] == '.'
    ensures forall j :: 0 <= j < k ==> s[j] != '.'
  {
    if |s| == 0 then 0
    else if s[0] == '.' then 0
    else 1 + DotIndex(s[1..])
  }

  /** A decimal numeral as PHP's `is_numeric` accepts it and the number it
      denotes: an optional sign, then digits with an optional '.' and fraction,
      with at least one digit overall. */
  function ParseNumeric(s: string): (r: Option<real>)
    ensures r.Some? ==> |s| >= 1
  {
    var negative := |s| > 0 && s[0] == '-';
    var body := if |s| > 0 && (s[0] == '-' || s[0] == '+') then s[1..] else s;
    var k := DotIndex(body);
    var whole := body[..k];
    var fraction := if k < |body| then body[k + 1..] else [];
    if !AllDigits(whole) || !AllDigits(fraction) || |whole| + |fraction| == 0 then None
    else
      var magnitude := DigitsValue(whole) as real + DigitsValue(fraction) as real / Pow10(|fraction|) as real;
      Some(if negative then -magnitude else magnitude)
  }

  /** Every string FILTER_VALIDATE_INT accepts is numeric, with the same value. */
  lemma IntegerStringIsNumeric(s: string)
    requires ParseInteger(s).Some?
    ensures ParseNumeric(s) == Some(ParseInteger(s).value as real)
  {
    var body := if |s| > 0 && (s[0] == '-' || s[0] == '+') then s[1..] else s;
    var k := DotIndex(body);
    assert forall j :: 0 <= j < |body| ==> body[j] != '.';
    assert k == |body|;
    assert body[..k] == body;
  }

  /** Floats below this magnitude print all their integer digits when PHP
      turns them into text (14 significant digits); larger ones print with an
      exponent. */
  const FloatDigitsLimit: int := 100_000_000_000_000

  /** `filter_var($v, FILTER_VALIDATE_INT)`: the integer a value denotes, if
      any. The value is first turned into text, so `true` is 1, `false` is
      nothing, and a whole float such as 50.0 (text "50") is that integer.
      Every such integer is also numeric with the same value, except `true`. */
  function IntegerOf(v: Value): (r: Option<int>)
    ensures r.Some? ==> v.Int? || v.Str? || v.Num? || v == Bool(true)
    ensures r.Some? ==> MinInt64 <= r.value <= MaxInt64
    ensures v.Num? ==> (r.Some? <==> v.r == v.r.Floor as real && -FloatDigitsLimit < v.r.Floor < FloatDigitsLimit)
    ensures r.Some? && v != Bool(true) ==> NumericOf(v) == Some(r.value as real)
  {
    match v
    case Int(i) => if MinInt64 <= i <= MaxInt64 then Some(i) else None
    case Num(x) => if x == x.Floor as real && -FloatDigitsLimit < x.Floor < FloatDigitsLimit then Some(x.Floor) else None
    case Str(s) =>
      if ParseInteger(s).Some? then IntegerStringIsNumeric(s); ParseInteger(s) else None
    case Bool(b) => if b then Some(1) else None
    case _ => None
  }

  /** A value `required` rejects (null, blank text, an empty array) is no integer. */
  lemma UnfilledIsNotInteger(v: Value)
    requires !Filled(v)
    ensures IntegerOf(v).None?
  {
    if v.Str? && |v.s| > 0 {
      assert IsTrimmed(v.s[0]);
      assert !IsDigit(v.s[0]);
    }
  }

  /** `is_numeric($v)` together with the number it denotes. */
  function NumericOf(v: Value): (r: Option<real>)
    ensures r.Some? <==> v.Int? || v.Num? || (v.Str? && ParseNumeric(v.s).Some?)
  {
    match v
    case Int(i) => Some(i as real)
    case Num(x) => Some(x)
    case Str(s) => ParseNumeric(s)
    case _ => None
  }

  /** An integer-valued value other than `true` is numeric with the same
      value; `true` counts as the integer 1 but is not numeric. */
  lemma IntegerIsNumeric(v: Value)
    requires IntegerOf(v).Some?
    ensures v == Bool(true) ==> IntegerOf(v) == Some(1) && NumericOf(v).None?
    ensures v != Bool(true) ==> NumericOf(v) == Some(IntegerOf(v).value as real)
  {
    if v.Str? {
      IntegerStringIsNumeric(v.s);
    }
  }

  /** `in_array($v, [true, false, 0, 1, '0', '1'], true)`. */
  function IsBooleanLike(v: Value): (b: bool)
    ensures b ==> v.Bool? || (IntegerOf(v).Some? && 0 <= IntegerOf(v).value <= 1)
  {
    v.Bool? || v == Int(0) || v == Int(1) || v == Str("0") || v == Str("1")
  }

  /** PHP's `(bool)` cast, used when a validated flag is stored. */
  function BoolCast(v: Value): (b: bool)
    ensures IsBooleanLike(v) ==> (b <==> v in {Bool(true), Int(1), Str("1")})
  {
    match v
    case Null => false
    case Bool(x) => x
    case Int(i) => i != 0
    case Num(x) => x != 0.0
    case Str(s) => s != "" && s != "0"
    case Arr(xs) => |xs| > 0
  }
}
