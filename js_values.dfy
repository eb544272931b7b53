/** The JavaScript semantics that tools/import_foods.js relies on when it reads a parsed JSON
    record: truthiness and `||`, `String(...)`, `Number(...)`, `String.prototype.trim`,
    `Array.isArray` and reading a property. Section numbers refer to ECMA-262. */
module JsValues {

  /** Number.MAX_SAFE_INTEGER, 2^53 - 1. */
  const MaxSafeInteger: int := 0x1F_FFFF_FFFF_FFFF

  /** An integer that a JavaScript number holds exactly. */
  type SafeInt = n: int | -MaxSafeInteger <= n <= MaxSafeInteger

  /** A value that JSON.parse can produce, plus `undefined`, which is what reading a missing
      property gives. Numbers are the integers a double holds exactly. */
  datatype JsValue =
    | Undefined
    | Null
    | Bool(b: bool)
    | Num(n: SafeInt)
    | Str(s: string)
    | Arr(elems: seq<JsValue>)
    | Obj(props: map<string, JsValue>)

  /** A number produced by `Number(...)`. `Unevaluated` keeps the literal of a string that is a
      valid number but not a safe integer written without fraction or exponent
      ("4.5", "1e3", "Infinity", "99999999999999999999"): its double is not computed here. */
  datatype JsNumber =
    | Int(i: SafeInt)
    | NaN
    | Unevaluated(literal: string)

  /** The outcome of an expression that may throw; the only exception here is a TypeError. */
  datatype Result<T> = Ok(value: T) | TypeError

  // ---------------------------------------------------------------------------------------
  // Truthiness (section 7.1.2, ToBoolean) and `||`

  predicate Truthy(v: JsValue)
    ensures IsNullish(v) ==> !Truthy(v)
    ensures v.Arr? || v.Obj? ==> Truthy(v)
  {
    match v
    case Undefined => false
    case Null => false
    case Bool(b) => b
    case Num(n) => n != 0
    case Str(s) => s != ""
    case Arr(_) => true
    case Obj(_) => true
  }

  /** `a || b` evaluates to its first operand when that is truthy, else to its second. */
  function Or(a: JsValue, b: JsValue): (r: JsValue)
    ensures r == a || r == b
    ensures Truthy(a) ==> r == a
    ensures Truthy(r) <==> Truthy(a) || Truthy(b)
  {
    if Truthy(a) then a else b
  }

  // ---------------------------------------------------------------------------------------
  // Whitespace and String.prototype.trim (section 22.1.3.32)

  /** The WhiteSpace (section 12.2: TAB, VT, FF, ZWNBSP and every code point of category Zs)
      and LineTerminator (section 12.3) code points: the set that trim removes. */
  const WhiteSpace: set<char> := {
    '\t', '\n', '\U{000B}', '\U{000C}', '\r', ' ', '\U{00A0}', '\U{1680}',
    '\U{2000}', '\U{2001}', '\U{2002}', '\U{2003}', '\U{2004}', '\U{2005}',
    '\U{2006}', '\U{2007}', '\U{2008}', '\U{2009}', '\U{200A}',
    '\U{2028}', '\U{2029}', '\U{202F}', '\U{205F}', '\U{3000}', '\U{FEFF}'}

  predicate IsWhiteSpace(c: char) {
    c in WhiteSpace
  }

  /** No printable ASCII character is whitespace. */
  lemma PrintableIsNotWhiteSpace(c: char)
    requires '!' <= c <= '~'
    ensures !IsWhiteSpace(c)
  {
  }

  ghost predicate AllWhiteSpace(s: string) {
    forall k :: 0 <= k < |s| ==> IsWhiteSpace(s[k])
  }

  /** s neither begins nor ends with whitespace. */
  predicate IsTrimmed(s: string) {
    s == [] || (!IsWhiteSpace(s[0]) && !IsWhiteSpace(s[|s| - 1]))
  }

  /** The length of the longest all-whitespace prefix of s. */
  function LeadingWhiteSpace(s: string): (n: nat)
    ensures n <= |s|
    ensures forall k :: 0 <= k < n ==> IsWhiteSpace(s[k])
    ensures n < |s| ==> !IsWhiteSpace(s[n])
  {
    if s == [] || !IsWhiteSpace(s[0]) then 0 else 1 + LeadingWhiteSpace(s[1..])
  }

  /** The length of the longest all-whitespace suffix of s. */
  function TrailingWhiteSpace(s: string): (n: nat)
    ensures n <= |s|
    ensures forall k :: |s| - n <= k < |s| ==> IsWhiteSpace(s[k])
    ensures n < |s| ==> !IsWhiteSpace(s[|s| - n - 1])
  {
    if s == [] || !IsWhiteSpace(s[|s| - 1]) then 0 else 1 + TrailingWhiteSpace(s[..|s| - 1])
  }

  /** `s.trim()`: s without its leading and trailing whitespace. */
  function Trim(s: string): (r: string)
    ensures IsTrimmed(r)
    ensures r == [] <==> AllWhiteSpace(s)
    ensures IsTrimmed(s) ==> r == s
  {
    var t := s[LeadingWhiteSpace(s)..];
    t[..|t| - TrailingWhiteSpace(t)]
  }

  /** Trim removes whitespace only, and only at the two ends: s is a whitespace prefix, then
      Trim(s), then a whitespace suffix. */
  lemma TrimRemovesOnlyWhiteSpace(s: string)
    ensures var i, r := LeadingWhiteSpace(s), Trim(s);
            i + |r| <= |s| && s[i..i + |r|] == r
            && AllWhiteSpace(s[..i]) && AllWhiteSpace(s[i + |r|..])
  {
    var i := LeadingWhiteSpace(s);
    var t := s[i..];
    var j := TrailingWhiteSpace(t);
    var r := t[..|t| - j];
    assert Trim(s) == r;
    assert s[i..i + |r|] == r;
    assert AllWhiteSpace(s[..i]) by {
      forall k | 0 <= k < i ensures IsWhiteSpace(s[..i][k]) {
        assert s[..i][k] == s[k];
      }
    }
    var tail := s[i + |r|..];
    assert AllWhiteSpace(tail) by {
      forall k | 0 <= k < |tail| ensures IsWhiteSpace(tail[k]) {
        assert tail[k] == t[|t| - j + k];
      }
    }
  }

  /** Trimming twice is trimming once. */
  lemma TrimIdempotent(s: string)
    ensures Trim(Trim(s)) == Trim(s)
  {
  }

  // ---------------------------------------------------------------------------------------
  // Digits

  /** The value of c as a digit of base up to 16, or 16 when c is no such digit. */
  function DigitValue(c: char): (d: nat)
    ensures d <= 16
  {
    if '0' <= c <= '9' then c as nat - '0' as nat
    else if 'a' <= c <= 'f' then c as nat - 'a' as nat + 10
    else if 'A' <= c <= 'F' then c as nat - 'A' as nat + 10
    else 16
  }

  /** s is a non-empty string of digits of the base. */
  predicate IsDigits(s: string, base: nat) {
    |s| > 0 && forall k :: 0 <= k < |s| ==> DigitValue(s[k]) < base
  }

  /** The number the digits s denote in the base, most significant first. */
  function DigitsValue(s: string, base: nat): nat {
    if s == [] then 0 else DigitsValue(s[..|s| - 1], base) * base + DigitValue(s[|s| - 1])
  }

  function DecimalDigit(d: nat): (c: char)
    requires d < 10
    ensures DigitValue(c) == d
  {
    ('0' as nat + d) as char
  }

  /** The decimal numeral of n, as Number.prototype.toString writes a non-negative safe
      integer (section 6.1.6.1.20). */
  function NatToDecimal(n: nat): (s: string)
    ensures IsDigits(s, 10)
    ensures DigitsValue(s, 10) == n
    ensures |s| == 1 || s[0] != '0'
  {
    if n < 10 then [DecimalDigit(n)]
    else
      var p := NatToDecimal(n / 10);
      var s := p + [DecimalDigit(n % 10)];
      assert s[..|s| - 1] == p;
      assert |p| == 1 ==> p[0] != '0' by {
        if |p| == 1 {
          assert p[..0] == [];
          assert DigitValue(p[0]) == n / 10;
        }
      }
      s
  }

  /** `String(n)` of an integer: a minus sign exactly for a negative n, then the numeral of |n|. */
  function IntToDecimal(n: int): (s: string)
    ensures |s| > 0 && (s[0] == '-' <==> n < 0)
    ensures n >= 0 ==> IsDigits(s, 10) && DigitsValue(s, 10) == n
    ensures n < 0 ==> IsDigits(s[1..], 10) && DigitsValue(s[1..], 10) == -n
    ensures n >= 0 ==> |s| == 1 || s[0] != '0'
    ensures n < 0 ==> |s| >= 2 && s[1] != '0'
  {
    if n < 0 then
      var p := NatToDecimal(-n);
      assert ("-" + p)[1..] == p;
      "-" + p
    else
      var p := NatToDecimal(n);
      assert DigitValue(p[0]) < 10;
      p
  }

  // ---------------------------------------------------------------------------------------
  // String(v) (section 7.1.17, ToString)

  /** Converting v to a primitive (section 7.1.1, ToPrimitive, through OrdinaryToPrimitive)
      throws a TypeError. A parsed JSON object's own properties are data, never functions, so an
      own `toString` hides Object.prototype.toString behind a value that cannot be called, and
      Object.prototype.valueOf returns the object itself: no primitive is found. An own `valueOf`
      changes nothing, since `toString` is still inherited. An array converts through
      Array.prototype.join, which converts every element that is not null or undefined. */
  predicate ToPrimitiveThrows(v: JsValue)
    ensures ToPrimitiveThrows(v) ==> v.Arr? || v.Obj?
    ensures v.Arr? && |v.elems| == 1 ==> (ToPrimitiveThrows(v) <==> ToPrimitiveThrows(v.elems[0]))
  {
    match v
    case Obj(props) => "toString" in props
    case Arr(elems) => exists k :: 0 <= k < |elems| && ToPrimitiveThrows(elems[k])
    case _ => false
  }

  /** `String(v)`. Arrays convert through Array.prototype.join with ",", where null and
      undefined elements give the empty string; plain objects give "[object Object]". */
  function ToStr(v: JsValue): (r: string)
    requires !ToPrimitiveThrows(v)
    ensures v.Str? ==> r == v.s
    ensures v.Arr? && v.elems == [] ==> r == ""
    ensures v.Arr? && |v.elems| == 1 && !IsNullish(v.elems[0]) ==> r == ToStr(v.elems[0])
    decreases v, 1
  {
    match v
    case Undefined => "undefined"
    case Null => "null"
    case Bool(b) => if b then "true" else "false"
    case Num(n) => IntToDecimal(n)
    case Str(s) => s
    case Arr(elems) => Join(elems, v)
    case Obj(_) => "[object Object]"
  }

  /** The elements of an array (held by `whole`), converted and joined with ",". */
  function Join(elems: seq<JsValue>, ghost whole: JsValue): (r: string)
    requires whole.Arr? && elems <= whole.elems && !ToPrimitiveThrows(whole)
    ensures |r| + 1 >= |elems|
    ensures |elems| > 0 && !IsNullish(elems[0]) ==> ToStr(whole.elems[0]) <= r
    decreases whole, 0, |elems|
  {
    if elems == [] then ""
    else
      var last := elems[|elems| - 1];
      var piece := if last.Undefined? || last.Null? then "" else ToStr(last);
      if |elems| == 1 then piece else Join(elems[..|elems| - 1], whole) + "," + piece
  }

  // ---------------------------------------------------------------------------------------
  // Number(v) (section 7.1.4, ToNumber, and section 7.1.4.1.1, StringToNumber)

  /** Index of the first occurrence of c1 or c2 in s, or |s| when there is none. */
  function Find(s: string, c1: char, c2: char): (i: nat)
    ensures i <= |s|
    ensures forall k :: 0 <= k < i ==> s[k] != c1 && s[k] != c2
    ensures i < |s| ==> s[i] == c1 || s[i] == c2
  {
    if s == [] || s[0] == c1 || s[0] == c2 then 0 else 1 + Find(s[1..], c1, c2)
  }

  predicate IsSign(c: char) {
    c == '+' || c == '-'
  }

  /** DecimalDigits, or a sign followed by DecimalDigits (SignedInteger). */
  predicate IsSignedInteger(s: string) {
    IsDigits(s, 10) || (|s| > 0 && IsSign(s[0]) && IsDigits(s[1..], 10))
  }

  /** `digits . digits`, `digits .`, `. digits` or `digits`: the part of a StrUnsignedDecimalLiteral
      before its exponent. */
  predicate IsMantissa(m: string) {
    var d := Find(m, '.', '.');
    var whole := m[..d];
    var fraction := if d < |m| then m[d + 1..] else "";
    (whole == "" || IsDigits(whole, 10)) && (fraction == "" || IsDigits(fraction, 10))
    && |whole| + |fraction| > 0
  }

  /** StrUnsignedDecimalLiteral: "Infinity", or a mantissa with an optional exponent part. */
  predicate IsUnsignedDecimalLiteral(u: string) {
    u == "Infinity"
    || (var e := Find(u, 'e', 'E');
        IsMantissa(u[..e]) && (e == |u| || IsSignedInteger(u[e + 1..])))
  }

  /** StrDecimalLiteral: an optional sign, then a StrUnsignedDecimalLiteral. */
  predicate IsDecimalLiteral(t: string) {
    IsUnsignedDecimalLiteral(t) || (|t| > 0 && IsSign(t[0]) && IsUnsignedDecimalLiteral(t[1..]))
  }

  /** The base that the second character of a NonDecimalIntegerLiteral selects, else 0. */
  function Radix(c: char): nat {
    if c == 'x' || c == 'X' then 16
    else if c == 'o' || c == 'O' then 8
    else if c == 'b' || c == 'B' then 2
    else 0
  }

  /** NonDecimalIntegerLiteral: "0x", "0o" or "0b" (either case) and digits of that base; no
      sign and no numeric separators. */
  predicate IsNonDecimalIntegerLiteral(t: string) {
    |t| >= 3 && t[0] == '0' && Radix(t[1]) > 0 && IsDigits(t[2..], Radix(t[1]))
  }

  function SignedDecimalValue(t: string): int
    requires IsSignedInteger(t)
  {
    if IsDigits(t, 10) then DigitsValue(t, 10)
    else if t[0] == '-' then -(DigitsValue(t[1..], 10) as int)
    else DigitsValue(t[1..], 10)
  }

  function SafeOrUnevaluated(v: int, literal: string): JsNumber {
    if -MaxSafeInteger <= v <= MaxSafeInteger then Int(v) else Unevaluated(literal)
  }

  /** `Number(s)` for a string: surrounding whitespace is ignored, the empty string is 0, a
      StrNumericLiteral gives its value and anything else gives NaN. */
  function StringToNumber(s: string): (r: JsNumber)
    ensures AllWhiteSpace(s) ==> r == Int(0)
  {
    var t := Trim(s);
    if t == "" then Int(0)
    else if IsDecimalLiteral(t) then
      if IsSignedInteger(t) then SafeOrUnevaluated(SignedDecimalValue(t), t) else Unevaluated(t)
    else if IsNonDecimalIntegerLiteral(t) then
      SafeOrUnevaluated(DigitsValue(t[2..], Radix(t[1])), t)
    else NaN
  }

  /** `Number(v)`. An array or object is first turned into a primitive, which for JSON values
      is its `String(...)`. */
  function ToNumber(v: JsValue): (r: JsNumber)
    requires !ToPrimitiveThrows(v)
    ensures v.Arr? && v.elems == [] ==> r == Int(0)
    ensures v.Str? ==> r == StringToNumber(v.s)
  {
    match v
    case Undefined => NaN
    case Null => Int(0)
    case Bool(b) => Int(if b then 1 else 0)
    case Num(n) => Int(n)
    case Str(s) => StringToNumber(s)
    case Arr(_) => StringToNumber(ToStr(v))
    case Obj(_) => StringToNumber(ToStr(v))
  }

  /** Whitespace around a numeric string does not change its value. */
  lemma NumberIgnoresSurroundingWhiteSpace(s: string)
    ensures StringToNumber(s) == StringToNumber(Trim(s))
  {
    TrimIdempotent(s);
  }

  /** `Number({...})` is NaN for a plain object: "[object Object]" is no numeric literal. */
  lemma ObjectToNumberIsNaN(v: JsValue)
    requires v.Obj? && !ToPrimitiveThrows(v)
    ensures ToNumber(v) == NaN
  {
    var t := "[object Object]";
    assert IsTrimmed(t) by {
      PrintableIsNotWhiteSpace(t[0]);
      PrintableIsNotWhiteSpace(t[|t| - 1]);
    }
    assert Trim(t) == t;
    if IsDecimalLiteral(t) {
      DecimalLiteralStart(t);
      assert false;
    }
  }

  /** A StrDecimalLiteral starts with a digit, a point, a sign or the "I" of "Infinity". */
  lemma DecimalLiteralStart(t: string)
    requires IsDecimalLiteral(t)
    ensures DigitValue(t[0]) < 10 || t[0] == '.' || IsSign(t[0]) || t[0] == 'I'
  {
    if !(|t| > 0 && IsSign(t[0])) && t != "Infinity" {
      var e := Find(t, 'e', 'E');
      var m := t[..e];
      assert IsMantissa(m);
      var d := Find(m, '.', '.');
      if d > 0 {
        assert IsDigits(m[..d], 10) && m[..d][0] == t[0];
      } else {
        assert m[0] == '.';
      }
    }
  }

  /** `Number(String(n)) === n` for every safe integer n: the decimal numeral String writes is
      read back by Number as the same integer. */
  lemma {:induction false} NumberOfStringOfInt(n: SafeInt)
    ensures StringToNumber(ToStr(Num(n))) == Int(n)
  {
    var t := ToStr(Num(n));
    assert t == IntToDecimal(n);
    IntNumeralIsTrimmed(n);
    IntNumeralValue(n);
    NumeralIsUnsignedDecimalLiteral(if n < 0 then t[1..] else t);
  }

  /** The numeral `String(n)` writes is a SignedInteger whose value is n. */
  lemma IntNumeralValue(n: int)
    ensures IsSignedInteger(IntToDecimal(n)) && SignedDecimalValue(IntToDecimal(n)) == n
  {
    var t := IntToDecimal(n);
    if n < 0 {
      assert DigitValue(t[0]) == 16;
      assert !IsDigits(t, 10);
    }
  }

  /** The numeral `String(n)` writes has no surrounding whitespace to trim. */
  lemma IntNumeralIsTrimmed(n: int)
    ensures Trim(IntToDecimal(n)) == IntToDecimal(n)
  {
    var t := IntToDecimal(n);
    var last := t[|t| - 1];
    assert DigitValue(last) < 10 by {
      if n < 0 { assert last == t[1..][|t| - 2]; }
    }
    assert '!' <= t[0] <= '~';
    PrintableEndsAreTrimmed(t);
  }

  /** A string that begins and ends with printable ASCII characters has nothing to trim. */
  lemma PrintableEndsAreTrimmed(t: string)
    requires |t| > 0 && '!' <= t[0] <= '~' && '!' <= t[|t| - 1] <= '~'
    ensures Trim(t) == t
  {
    PrintableIsNotWhiteSpace(t[0]);
    PrintableIsNotWhiteSpace(t[|t| - 1]);
  }

  /** A string of decimal digits is a StrUnsignedDecimalLiteral (with no fraction and no
      exponent). */
  lemma NumeralIsUnsignedDecimalLiteral(digits: string)
    requires IsDigits(digits, 10)
    ensures IsUnsignedDecimalLiteral(digits)
  {
    assert forall k :: 0 <= k < |digits| ==> digits[k] != 'e' && digits[k] != 'E' && digits[k] != '.';
    assert Find(digits, 'e', 'E') == |digits|;
    assert digits[..|digits|] == digits;
    assert Find(digits, '.', '.') == |digits|;
  }

  // ---------------------------------------------------------------------------------------
  // Property reads and Array.isArray

  /** `v` is `undefined` or `null`: reading a property of it throws a TypeError. */
  predicate IsNullish(v: JsValue) {
    v.Undefined? || v.Null?
  }

  /** `v[key]` for a value that is not nullish, for the property names normalizeFood reads
      (none of which Object.prototype, Array.prototype or String.prototype define): an own
      property of an object, and `undefined` otherwise. */
  function Prop(v: JsValue, key: string): (r: JsValue)
    requires !IsNullish(v)
    ensures r != Undefined ==> v.Obj? && key in v.props && v.props[key] == r
    ensures v.Obj? && key in v.props ==> r == v.props[key]
  {
    if v.Obj? && key in v.props then v.props[key] else Undefined
  }

  /** `Array.isArray(v)`. */
  predicate IsArray(v: JsValue)
    ensures IsArray(v) ==> Truthy(v)
  {
    v.Arr?
  }
}
