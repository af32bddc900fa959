/** Python's number/text conversions as the converters use them: `str(int)`,
    `int(s)`, `float(s)` on the characters the surrounding regular expressions
    admit, and the fixed-point `f"{x:.Nf}"` formatting. */
module PyNumbers {
  import opened PyStrings

  function Pow10(n: nat): (r: nat)
    ensures r >= 1
  {
    if n == 0 then 1 else 10 * Pow10(n - 1)
  }

  /** `10 ** e` for a possibly negative exponent, exactly. */
  function Pow10Real(e: int): (r: real)
    ensures r > 0.0
  {
    if e >= 0 then Pow10(e) as real else 1.0 / Pow10(-e) as real
  }

  function DigitChar(d: nat): (c: char)
    requires d < 10
    ensures IsDigit(c)
  {
    ('0' as int + d) as char
  }

  function DigitValue(c: char): (d: nat)
    requires IsDigit(c)
    ensures d < 10 && DigitChar(d) == c
  {
    c as int - '0' as int
  }

  /** Value of a string of decimal digits, most significant first. */
  function DigitsValue(s: string): nat
    requires AllDigits(s)
  {
    if s == [] then 0 else 10 * DigitsValue(s[..|s| - 1]) + DigitValue(s[|s| - 1])
  }

  /** `str(n)` for a natural number: decimal digits without leading zeros. */
  function NatToString(n: nat): (r: string)
    ensures |r| > 0 && AllDigits(r)
    ensures r[0] == '0' ==> n == 0
  {
    if n < 10 then [DigitChar(n)] else NatToString(n / 10) + [DigitChar(n % 10)]
  }

  /** Characters of a printed number: digits, point and minus sign. */
  predicate NumeralChars(s: string) {
    forall i :: 0 <= i < |s| ==> IsDigit(s[i]) || s[i] == '.' || s[i] == '-'
  }

  /** `str(i)` for an integer. */
  function IntToString(i: int): (r: string)
    ensures |r| > 0 && NumeralChars(r)
  {
    if i < 0 then "-" + NatToString(-i) else NatToString(i)
  }

  /** `n` written with exactly `width` digits, zero-padded on the left. */
  function PadDigits(n: nat, width: nat): (r: string)
    requires n < Pow10(width)
    ensures |r| == width && AllDigits(r)
  {
    if width == 0 then "" else PadDigits(n / 10, width - 1) + [DigitChar(n % 10)]
  }

  lemma {:induction false} NatToStringValue(n: nat)
    ensures DigitsValue(NatToString(n)) == n
  {
    var r := NatToString(n);
    if n >= 10 {
      NatToStringValue(n / 10);
      assert r[..|r| - 1] == NatToString(n / 10);
    }
  }

  lemma {:induction false} PadDigitsValue(n: nat, width: nat)
    requires n < Pow10(width)
    ensures DigitsValue(PadDigits(n, width)) == n
  {
    if width > 0 {
      var r := PadDigits(n, width);
      PadDigitsValue(n / 10, width - 1);
      assert r[..|r| - 1] == PadDigits(n / 10, width - 1);
    }
  }

  /** `int(s)` on text made of signs and digits: an optional sign, then at
      least one digit. Anything else raises `ValueError`, here `None`. */
  function ParseInt(s: string): (r: Option<int>)
    ensures r.Some? ==> |s| > 0
  {
    if |s| > 0 && (s[0] == '-' || s[0] == '+') then
      var body := s[1..];
      if |body| > 0 && AllDigits(body) then
        Some(if s[0] == '-' then -(DigitsValue(body) as int) else DigitsValue(body) as int)
      else None
    else if |s| > 0 && AllDigits(s) then Some(DigitsValue(s) as int)
    else None
  }

  /** `int(str(i)) == i`. */
  lemma IntRoundTrip(i: int)
    ensures ParseInt(IntToString(i)) == Some(i)
  {
    if i < 0 {
      var body := NatToString(-i);
      NatToStringValue(-i);
      assert IntToString(i) == "-" + body;
      assert ("-" + body)[1..] == body;
    } else {
      var s := NatToString(i);
      NatToStringValue(i);
      assert IsDigit(s[0]);
    }
  }

  /** `str` is injective on integers. */
  lemma IntToStringInjective(i: int, j: int)
    requires IntToString(i) == IntToString(j)
    ensures i == j
  {
    IntRoundTrip(i);
    IntRoundTrip(j);
  }

  /** Index of the first character of `s` in `cs`, or `|s|`. */
  function IndexOfAny(s: string, cs: set<char>): (k: nat)
    ensures k <= |s| && (k < |s| ==> s[k] in cs)
    ensures forall i :: 0 <= i < k ==> s[i] !in cs
  {
    if s == [] || s[0] in cs then 0 else 1 + IndexOfAny(s[1..], cs)
  }

  /** The unsigned mantissa of a float literal: `digits`, `digits.`,
      `digits.digits` or `.digits`. */
  function ParseMantissa(m: string): Option<real> {
    var j := IndexOfAny(m, {'.'});
    var whole := m[..j];
    var frac := if j < |m| then m[j + 1..] else "";
    if AllDigits(whole) && AllDigits(frac) && (|whole| > 0 || |frac| > 0) then
      Some(DecimalValue(whole, frac))
    else None
  }

  /** Value of the decimal literal `<whole>.<frac>`. */
  function DecimalValue(whole: string, frac: string): real
    requires AllDigits(whole) && AllDigits(frac)
  {
    DigitsValue(whole) as real + DigitsValue(frac) as real / Pow10(|frac|) as real
  }

  /** An unsigned float literal: a mantissa, optionally `e`/`E` and an
      optionally signed integer exponent. */
  function ParseUnsignedFloat(s: string): Option<real> {
    var k := IndexOfAny(s, {'e', 'E'});
    match ParseMantissa(s[..k])
    case None => None
    case Some(m) =>
      if k == |s| then Some(m)
      else
        match ParseInt(s[k + 1..])
        case None => None
        case Some(e) => Some(m * Pow10Real(e))
  }

  /** `float(s)` on text made of signs, digits, `.` and `e`/`E` (the only
      characters the converters' patterns let through); the exact real value
      of the literal, `None` where Python raises `ValueError`. */
  function ParseFloat(s: string): (r: Option<real>)
    ensures r.Some? ==> |s| > 0
  {
    if |s| > 0 && (s[0] == '-' || s[0] == '+') then
      match ParseUnsignedFloat(s[1..])
      case None => None
      case Some(v) => Some(if s[0] == '-' then -v else v)
    else if s == [] then None
    else ParseUnsignedFloat(s)
  }

  function Abs(x: real): real { if x < 0.0 then -x else x }

  /** Round half to even of a non-negative real, the rule `format` applies to
      the exact value it is given. */
  function RoundHalfEven(y: real): (n: nat)
    requires y >= 0.0
    ensures Abs(n as real - y) <= 0.5
  {
    var f := y.Floor;
    var frac := y - f as real;
    if frac < 0.5 then f
    else if frac > 0.5 then f + 1
    else if f % 2 == 0 then f else f + 1
  }

  /** Number of units of `10^-d` that `f"{x:.{d}f}"` prints, before the sign. */
  function Scaled(x: real, d: nat): nat {
    RoundHalfEven(Abs(x) * Pow10(d) as real)
  }

  /** `f"{x:.{d}f}"`: optional minus sign, the integer part, and for `d > 0` a
      point followed by exactly `d` digits. A negative value that rounds to
      zero keeps its sign, as Python prints `-0.00`. */
  function FixedPoint(x: real, d: nat): (r: string)
    ensures |r| > d
    ensures d > 0 ==> r[|r| - d - 1] == '.'
    ensures r[0] == '-' <==> x < 0.0
    ensures NumeralChars(r)
  {
    var digits := FixedDigits(Scaled(x, d), d);
    if x < 0.0 then "-" + digits else digits
  }

  /** `n` units of `10^-d` written out: integer part, and for `d > 0` a point
      and exactly `d` fraction digits. */
  function FixedDigits(n: nat, d: nat): (r: string)
    ensures |r| > d && IsDigit(r[0])
    ensures d > 0 ==> r[|r| - d - 1] == '.'
    ensures NumeralChars(r)
  {
    var p := Pow10(d);
    DivMod(n, p);
    var whole := NatToString(n / p);
    if d == 0 then whole
    else
      var frac := PadDigits(n % p, d);
      assert (whole + "." + frac)[|whole|] == '.';
      whole + "." + frac
  }

  /** The value `FixedPoint(x, d)` denotes. */
  function FixedValue(x: real, d: nat): real {
    var v := Scaled(x, d) as real / Pow10(d) as real;
    if x < 0.0 then -v else v
  }

  /** The printed value is within half a unit of the last printed digit. */
  lemma FixedValueClose(x: real, d: nat)
    ensures Abs(FixedValue(x, d) - x) <= 0.5 / Pow10(d) as real
  {
    var p := Pow10(d) as real;
    var n := Scaled(x, d) as real;
    var a := Abs(x);
    ScaledError(x, d, n, a, p);
    DivideError(n, a, p);
    SignedError(x, d, n, a, p);
  }

  lemma ScaledError(x: real, d: nat, n: real, a: real, p: real)
    requires p == Pow10(d) as real && n == Scaled(x, d) as real && a == Abs(x)
    ensures -0.5 <= n - a * p <= 0.5
  {
  }

  lemma SignedError(x: real, d: nat, n: real, a: real, p: real)
    requires p == Pow10(d) as real && n == Scaled(x, d) as real && a == Abs(x)
    requires -0.5 / p <= n / p - a <= 0.5 / p
    ensures Abs(FixedValue(x, d) - x) <= 0.5 / p
  {
    var v := n / p;
    assert FixedValue(x, d) == if x < 0.0 then -v else v;
  }

  lemma DivideError(n: real, a: real, p: real)
    requires p >= 1.0 && -0.5 <= n - a * p <= 0.5
    ensures -0.5 / p <= n / p - a <= 0.5 / p
  {
    var e := n - a * p;
    assert n / p - a == e / p;
    if e >= 0.0 {
      assert e / p <= 0.5 / p;
    } else {
      assert -e / p <= 0.5 / p;
    }
  }

  /** Reading the printed text back with `float()` yields exactly the value it
      denotes. */
  lemma FixedPointParse(x: real, d: nat)
    requires d > 0
    ensures ParseFloat(FixedPoint(x, d)) == Some(FixedValue(x, d))
  {
    var u := FixedDigits(Scaled(x, d), d);
    FixedDigitsParse(Scaled(x, d), d);
    if x < 0.0 {
      assert FixedPoint(x, d) == "-" + u;
      assert ("-" + u)[1..] == u;
    } else {
      assert FixedPoint(x, d) == u;
    }
  }

  /** Two decimals read back lie within `0.005` of the printed value. */
  lemma TwoDecimalsClose(x: real)
    ensures ParseFloat(FixedPoint(x, 2)).Some?
    ensures Abs(ParseFloat(FixedPoint(x, 2)).value - x) <= 0.005
  {
    FixedPointParse(x, 2);
    FixedValueClose(x, 2);
    assert Pow10(2) == 100;
  }

  lemma FixedDigitsParse(n: nat, d: nat)
    requires d > 0
    ensures ParseUnsignedFloat(FixedDigits(n, d)) == Some(n as real / Pow10(d) as real)
  {
    var p := Pow10(d);
    DivMod(n, p);
    var whole, frac := NatToString(n / p), PadDigits(n % p, d);
    assert FixedDigits(n, d) == whole + "." + frac;
    NatToStringValue(n / p);
    PadDigitsValue(n % p, d);
    ParseDecimal(whole, frac);
    SplitQuotient(n, p);
    assert DecimalValue(whole, frac) == n as real / p as real;
  }

  /** `float("<digits>.<digits>")` is the decimal value of the literal. */
  lemma ParseDecimal(whole: string, frac: string)
    requires |whole| > 0 && AllDigits(whole) && AllDigits(frac)
    ensures ParseUnsignedFloat(whole + "." + frac)
      == Some(DecimalValue(whole, frac))
  {
    var u := whole + "." + frac;
    forall i | 0 <= i < |u| ensures u[i] !in {'e', 'E'} {
      if i < |whole| { assert u[i] == whole[i]; }
      else if i > |whole| { assert u[i] == frac[i - |whole| - 1]; }
    }
    IndexOfAnyFirst(u, {'e', 'E'}, |u|);
    assert u[..|u|] == u;
    ParseMantissaDecimal(whole, frac);
  }

  lemma ParseMantissaDecimal(whole: string, frac: string)
    requires |whole| > 0 && AllDigits(whole) && AllDigits(frac)
    ensures ParseMantissa(whole + "." + frac)
      == Some(DecimalValue(whole, frac))
  {
    var u := whole + "." + frac;
    forall i | 0 <= i < |whole| ensures u[i] !in {'.'} {
      assert u[i] == whole[i];
    }
    IndexOfAnyFirst(u, {'.'}, |whole|);
    assert u[..|whole|] == whole;
    assert u[|whole| + 1..] == frac;
  }

  lemma {:induction false} IndexOfAnyFirst(s: string, cs: set<char>, k: nat)
    requires k <= |s| && (k < |s| ==> s[k] in cs)
    requires forall i :: 0 <= i < k ==> s[i] !in cs
    ensures IndexOfAny(s, cs) == k
  {
    if k > 0 {
      IndexOfAnyFirst(s[1..], cs, k - 1);
    }
  }

  lemma DivMod(n: nat, p: nat)
    requires p >= 1
    ensures n / p >= 0 && n % p < p && n == (n / p) * p + n % p
  {
  }

  lemma SplitQuotient(n: nat, p: nat)
    requires p >= 1
    ensures (n / p) as real + (n % p) as real / p as real == n as real / p as real
  {
    var q, r := n / p, n % p;
    assert n == q * p + r;
    assert n as real == q as real * p as real + r as real;
  }

  /** Every entry of `xs` parses with `f`. */
  predicate AllParse<T>(xs: seq<string>, f: string -> Option<T>) {
    forall i :: 0 <= i < |xs| ==> f(xs[i]).Some?
  }

  /** `vs` holds, entry by entry and in order, the values `f` reads from `xs`. */
  predicate ReadAs<T(==)>(xs: seq<string>, f: string -> Option<T>, vs: seq<T>) {
    |vs| == |xs| && forall i :: 0 <= i < |xs| ==> f(xs[i]) == Some(vs[i])
  }

  /** `list(map(f, xs))` for a parser `f` that may raise: the parsed values
      when every entry parses, `None` as soon as one does not. */
  function ParseAll<T>(xs: seq<string>, f: string -> Option<T>): (r: Option<seq<T>>)
    ensures r.Some? <==> forall i :: 0 <= i < |xs| ==> f(xs[i]).Some?
    ensures r.Some? ==> |r.value| == |xs| && forall i :: 0 <= i < |xs| ==> f(xs[i]) == Some(r.value[i])
  {
    if xs == [] then Some([])
    else
      match f(xs[0])
      case None => None
      case Some(v) =>
        match ParseAll(xs[1..], f)
        case None => None
        case Some(vs) => Some([v] + vs)
  }
}
