/** JavaScript's conversion of a string to a number (`Number(s)`, and the
    implicit conversion of `isNaN`, `/` and `>=`), following the grammar
    StringNumericLiteral of section 7.1.4.1 of ECMA-262: surrounding white
    space is ignored, an empty text is 0, "Infinity" with an optional sign
    is infinite, 0x/0o/0b prefixes read hexadecimal, octal and binary
    integers, and otherwise a decimal literal with an optional sign,
    fraction and exponent is read. Finite values are exact rationals: the
    rounding to the nearest double is not modelled. */
module JsNumbers {
  import opened Wrappers

  datatype Number = NaN | Finite(value: real) | Infinite(negative: bool)

  // ---------------------------------------------------------------------
  // Digits

  /** The value of a digit in bases up to 16, `None` for other characters. */
  function DigitValue(c: char): (r: Option<nat>)
    ensures r.Some? ==> r.value < 16
    ensures '0' <= c <= '9' <==> r.Some? && r.value < 10
  {
    if '0' <= c <= '9' then Some(c as int - '0' as int)
    else if 'a' <= c <= 'f' then Some(c as int - 'a' as int + 10)
    else if 'A' <= c <= 'F' then Some(c as int - 'A' as int + 10)
    else None
  }

  predicate IsRadixDigits(s: string, radix: nat) {
    forall i :: 0 <= i < |s| ==> DigitValue(s[i]).Some? && DigitValue(s[i]).value < radix
  }

  predicate IsDigits(s: string) {
    IsRadixDigits(s, 10)
  }

  /** The value of a digit string, most significant digit first. */
  function RadixValue(s: string, radix: nat): nat
    requires IsRadixDigits(s, radix)
  {
    if s == [] then 0
    else
      var high := RadixValue(s[..|s| - 1], radix);
      var low := DigitValue(s[|s| - 1]).value;
      assert radix * high >= 0 by { NonNegativeProduct(radix, high); }
      radix * high + low
  }

  lemma NonNegativeProduct(a: nat, b: nat)
    ensures a * b >= 0
  {
  }

  /** `x` times ten to the power `e`. */
  function Scale(x: real, e: int): real
    decreases if e >= 0 then e else -e
  {
    if e == 0 then x
    else if e > 0 then 10.0 * Scale(x, e - 1)
    else Scale(x, e + 1) / 10.0
  }

  // ---------------------------------------------------------------------
  // White space

  /** StrWhiteSpaceChar: the white space and line terminators of ECMA-262. */
  predicate IsStrWhiteSpace(c: char) {
    || c == '\t' || c == '\n' || c == '\U{000B}' || c == '\U{000C}' || c == '\r'
    || c == ' ' || c == '\U{00A0}' || c == '\U{1680}'
    || ('\U{2000}' <= c <= '\U{200A}')
    || c == '\U{2028}' || c == '\U{2029}' || c == '\U{202F}' || c == '\U{205F}'
    || c == '\U{3000}' || c == '\U{FEFF}'
  }

  /** Leading white space removed. */
  function TrimStart(s: string): (r: string)
    ensures |r| <= |s| && r == s[|s| - |r|..]
    ensures r != [] ==> !IsStrWhiteSpace(r[0])
    ensures forall i :: 0 <= i < |s| - |r| ==> IsStrWhiteSpace(s[i])
  {
    if s != [] && IsStrWhiteSpace(s[0]) then TrimStart(s[1..]) else s
  }

  /** Trailing white space removed. */
  function TrimEnd(s: string): (r: string)
    ensures |r| <= |s| && r == s[..|r|]
    ensures r != [] ==> !IsStrWhiteSpace(r[|r| - 1])
    ensures forall i :: |r| <= i < |s| ==> IsStrWhiteSpace(s[i])
  {
    if s != [] && IsStrWhiteSpace(s[|s| - 1]) then TrimEnd(s[..|s| - 1]) else s
  }

  function Trim(s: string): string {
    TrimEnd(TrimStart(s))
  }

  /** A text that neither starts nor ends with white space is its own
      trimmed form. */
  lemma TrimmedText(s: string)
    requires s != [] && !IsStrWhiteSpace(s[0]) && !IsStrWhiteSpace(s[|s| - 1])
    ensures Trim(s) == s
  {
  }

  // ---------------------------------------------------------------------
  // Literals

  /** The position of the first `a` or `b` in the text, or its length. */
  function FirstOf(s: string, a: char, b: char): (k: nat)
    ensures k <= |s|
    ensures k < |s| ==> s[k] == a || s[k] == b
    ensures forall i :: 0 <= i < k ==> s[i] != a && s[i] != b
  {
    if s == [] then 0
    else if s[0] == a || s[0] == b then 0
    else 1 + FirstOf(s[1..], a, b)
  }

  /** DecimalDigits with an optional fraction: "12", "12.", "12.5" or ".5";
      at least one digit. */
  function Mantissa(m: string): Option<real> {
    var k := FirstOf(m, '.', '.');
    var whole := m[..k];
    var frac := if k < |m| then m[k + 1..] else [];
    if IsDigits(whole) && IsDigits(frac) && |whole| + |frac| > 0 then
      Some(Scale(RadixValue(whole + frac, 10) as real, -|frac|))
    else None
  }

  /** The part after 'e' or 'E': an optional sign and at least one digit. */
  function ExponentValue(x: string): Option<int> {
    if x != [] && (x[0] == '+' || x[0] == '-') then
      var digits := x[1..];
      if IsDigits(digits) && digits != [] then
        var v: int := RadixValue(digits, 10);
        Some(if x[0] == '-' then -v else v)
      else None
    else if IsDigits(x) && x != [] then Some(RadixValue(x, 10))
    else None
  }

  /** StrUnsignedDecimalLiteral other than "Infinity": a mantissa and an
      optional exponent. */
  function UnsignedDecimal(u: string): Option<real> {
    var k := FirstOf(u, 'e', 'E');
    var exponent := if k < |u| then ExponentValue(u[k + 1..]) else Some(0);
    match (Mantissa(u[..k]), exponent)
    case (Some(v), Some(e)) => Some(Scale(v, e))
    case _ => None
  }

  function RadixOf(c: char): nat {
    if c == 'x' || c == 'X' then 16 else if c == 'o' || c == 'O' then 8 else 2
  }

  predicate HasRadixPrefix(t: string) {
    |t| >= 2 && t[0] == '0' && t[1] in "xXoObB"
  }

  /** The trimmed text read as a literal. */
  function LiteralValue(t: string): Number {
    if t == [] then Finite(0.0)
    else if HasRadixPrefix(t) then
      var radix := RadixOf(t[1]);
      var digits := t[2..];
      if digits != [] && IsRadixDigits(digits, radix) then Finite(RadixValue(digits, radix) as real) else NaN
    else
      var negative := t[0] == '-';
      var u := if t[0] == '-' || t[0] == '+' then t[1..] else t;
      if u == "Infinity" then Infinite(negative)
      else match UnsignedDecimal(u)
        case None => NaN
        case Some(v) => Finite(if negative then -v else v)
  }

  /** StringToNumber: the number a text denotes, `NaN` when it is no
      numeric literal. */
  function ToNumber(s: string): (n: Number)
    ensures Trim(s) == [] ==> n == Finite(0.0)
  {
    LiteralValue(Trim(s))
  }

  // ---------------------------------------------------------------------
  // Arithmetic and comparison

  /** `n / d` for a positive whole divisor. */
  function DivideBy(n: Number, d: nat): (r: Number)
    requires d > 0
    ensures r.NaN? <==> n.NaN?
    ensures n.Finite? ==> r == Finite(n.value / d as real)
    ensures n.Infinite? ==> r == n
  {
    match n
    case Finite(v) => Finite(v / d as real)
    case _ => n
  }

  /** `Math.floor`: the greatest integer not above a finite value. */
  function Floor(n: Number): (r: Number)
    ensures n.Finite? ==> r.Finite? && r.value <= n.value < r.value + 1.0 && r.value == r.value.Floor as real
    ensures !n.Finite? ==> r == n
  {
    match n
    case Finite(v) => Finite(v.Floor as real)
    case _ => n
  }

  /** `a >= b` on numbers: false when either side is `NaN`. */
  predicate AtLeast(a: Number, b: Number) {
    match (a, b)
    case (NaN, _) => false
    case (_, NaN) => false
    case (Infinite(na), Infinite(nb)) => !na || nb
    case (Infinite(na), Finite(_)) => !na
    case (Finite(_), Infinite(nb)) => nb
    case (Finite(x), Finite(y)) => x >= y
  }

  // ---------------------------------------------------------------------
  // Properties

  /** `>=` is the real order on finite values, never holds with `NaN`,
      every number but `NaN` is at least -Infinity, and it is
      antisymmetric. */
  lemma AtLeastOrder(a: Number, b: Number)
    ensures a.NaN? || b.NaN? ==> !AtLeast(a, b)
    ensures a.Finite? && b.Finite? ==> (AtLeast(a, b) <==> a.value >= b.value)
    ensures !a.NaN? ==> AtLeast(a, Infinite(true))
    ensures AtLeast(a, b) && AtLeast(b, a) ==> a == b
  {
  }

  /** A digit string holds no '.', 'e', 'E', sign or white space. */
  lemma DigitsHaveNoMarks(s: string)
    requires IsDigits(s)
    ensures FirstOf(s, '.', '.') == |s| && FirstOf(s, 'e', 'E') == |s|
    ensures s != [] ==> !IsStrWhiteSpace(s[0]) && !IsStrWhiteSpace(s[|s| - 1])
    ensures s != [] ==> s[0] != '-' && s[0] != '+' && s[0] != 'I' && !HasRadixPrefix(s)
  {
    forall i | 0 <= i < |s|
      ensures s[i] != '.' && s[i] != 'e' && s[i] != 'E' && s[i] != 'x' && s[i] != 'X' && s[i] != 'o'
      ensures s[i] != 'O' && s[i] != 'b' && s[i] != 'B' && s[i] != '-' && s[i] != '+' && s[i] != 'I'
      ensures !IsStrWhiteSpace(s[i])
    {
      assert DigitValue(s[i]).value < 10;
    }
  }

  /** The literal value of a text with no prefix and no sign is its
      unsigned decimal value. */
  lemma UnsignedLiteral(t: string)
    requires t != [] && !HasRadixPrefix(t) && t[0] != '-' && t[0] != '+' && t != "Infinity"
    ensures UnsignedDecimal(t).Some? ==> LiteralValue(t) == Finite(UnsignedDecimal(t).value)
    ensures UnsignedDecimal(t).None? ==> LiteralValue(t) == NaN
  {
  }

  /** A leading '-' negates the unsigned decimal value. */
  lemma NegatedLiteral(t: string)
    requires |t| > 1 && t[0] == '-' && t[1..] != "Infinity"
    ensures UnsignedDecimal(t[1..]).Some? ==> LiteralValue(t) == Finite(-UnsignedDecimal(t[1..]).value)
    ensures UnsignedDecimal(t[1..]).None? ==> LiteralValue(t) == NaN
  {
  }

  /** Without an exponent, the unsigned decimal value is the mantissa's. */
  lemma NoExponent(u: string)
    requires FirstOf(u, 'e', 'E') == |u|
    ensures UnsignedDecimal(u) == Mantissa(u)
  {
    assert u[..|u|] == u;
    if Mantissa(u).Some? {
      assert Scale(Mantissa(u).value, 0) == Mantissa(u).value;
    }
  }

  /** Without a fraction, a digit string's mantissa is its value. */
  lemma WholeMantissa(m: string)
    requires IsDigits(m) && m != [] && FirstOf(m, '.', '.') == |m|
    ensures Mantissa(m) == Some(RadixValue(m, 10) as real)
  {
    assert m[..|m|] == m;
    assert m + [] == m;
  }

  /** A plain digit string reads as its decimal value. */
  lemma DigitsAreDecimal(s: string)
    requires IsDigits(s) && s != []
    ensures ToNumber(s) == Finite(RadixValue(s, 10) as real)
  {
    DigitsHaveNoMarks(s);
    TrimmedText(s);
    assert s != "Infinity";
    UnsignedLiteral(s);
    NoExponent(s);
    WholeMantissa(s);
  }

  /** `FirstOf` finds nothing in a text without either character. */
  lemma NoneOf(s: string, a: char, b: char)
    requires forall i :: 0 <= i < |s| ==> s[i] != a && s[i] != b
    ensures FirstOf(s, a, b) == |s|
  {
  }

  /** `FirstOf` finds a position holding one of the characters with none
      before it. */
  lemma FirstOfAt(s: string, k: nat, a: char, b: char)
    requires k < |s| && (s[k] == a || s[k] == b)
    requires forall i :: 0 <= i < k ==> s[i] != a && s[i] != b
    ensures FirstOf(s, a, b) == k
  {
  }

  /** Texts that are not literals read as `NaN`. The concrete texts are
      passed as parameters so that the proof steps see them one at a
      time. */
  lemma NotALiteral(a: string)
    requires a == "abc"
    ensures ToNumber(a) == NaN
  {
    TrimmedText(a);
    UnsignedLiteral(a);
    NoneOf(a, 'e', 'E');
    NoExponent(a);
    NoneOf(a, '.', '.');
    assert a[..3] == a;
    assert !IsDigits(a) by { assert DigitValue(a[0]).value >= 10; }
  }

  lemma TwoPoints(b: string)
    requires b == "1.2.3"
    ensures ToNumber(b) == NaN
  {
    TrimmedText(b);
    UnsignedLiteral(b);
    NoneOf(b, 'e', 'E');
    NoExponent(b);
    FirstOfAt(b, 1, '.', '.');
    assert b[2..] == "2.3";
    assert !IsDigits("2.3") by { assert DigitValue("2.3"[1]).None?; }
  }

  /** White space alone reads as zero. */
  lemma BlankIsZero(s: string)
    requires forall i :: 0 <= i < |s| ==> IsStrWhiteSpace(s[i])
    ensures ToNumber(s) == Finite(0.0)
  {
  }

  lemma OneDigit(c: char)
    requires '0' <= c <= '9'
    ensures IsDigits([c]) && RadixValue([c], 10) == c as int - '0' as int
  {
    assert [c][..0] == [];
  }

  /** A fraction: "1.5" is one and a half. */
  lemma FractionLiteral(s: string)
    requires s == "1.5"
    ensures ToNumber(s) == Finite(1.5)
  {
    TrimmedText(s);
    UnsignedLiteral(s);
    NoneOf(s, 'e', 'E');
    NoExponent(s);
    FirstOfAt(s, 1, '.', '.');
    assert s[..1] == "1" && s[2..] == "5";
    OneDigit('1');
    OneDigit('5');
    assert "1" + "5" == "15";
    assert RadixValue("15", 10) == 15 by {
      assert "15"[..1] == "1";
    }
    assert Scale(15.0, -1) == 1.5;
  }

  /** A sign: "-1" is minus one. */
  lemma NegativeLiteral(s: string)
    requires s == "-1"
    ensures ToNumber(s) == Finite(-1.0)
  {
    TrimmedText(s);
    assert s[1..] == "1";
    NegatedLiteral(s);
    OneDigit('1');
    DigitsHaveNoMarks("1");
    NoExponent("1");
    WholeMantissa("1");
  }

  /** An exponent: "1e3" is a thousand. */
  lemma ExponentLiteral(s: string)
    requires s == "1e3"
    ensures ToNumber(s) == Finite(1000.0)
  {
    TrimmedText(s);
    UnsignedLiteral(s);
    FirstOfAt(s, 1, 'e', 'E');
    assert s[..1] == "1" && s[2..] == "3";
    OneDigit('1');
    OneDigit('3');
    DigitsHaveNoMarks("1");
    WholeMantissa("1");
    assert ExponentValue("3") == Some(3);
    assert Scale(1.0, 3) == 1000.0;
  }

  /** A hexadecimal literal: "0x10" is sixteen. */
  lemma HexLiteral(s: string)
    requires s == "0x10"
    ensures ToNumber(s) == Finite(16.0)
  {
    TrimmedText(s);
    assert HasRadixPrefix(s) && RadixOf(s[1]) == 16;
    assert s[2..] == "10";
    assert "10"[..1] == "1";
    assert RadixValue("1", 16) == 1 by { assert "1"[..0] == []; }
  }
}
