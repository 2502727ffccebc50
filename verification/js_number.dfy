/** JavaScript Numbers as the wallet code observes them, `Number.parseInt`
    (ECMA-262 section 21.1.2.13) and the decimal text of an index in a
    template literal. */
module JsNumber {
  import opened JsText

  /** A Number produced by `parseInt`. Integers are kept exact; a value whose
      magnitude reaches OVERFLOW is an infinity, as the double nearest to it
      is. */
  datatype Number = NaN | Finite(value: int) | PositiveInfinity | NegativeInfinity

  /** 2^1024 - 2^970: the least integer that rounds to Infinity under IEEE 754
      round-to-nearest-even (halfway between Number.MAX_VALUE and 2^1024). */
  const OVERFLOW: int := 179769313486231580793728971405303415079934132710037826936173778980444968292764750946649017977587207096330286416692887910946555547851940402630657488671505820681908902000708383676273854845817711531764475730270069855571366959622842914819860834936475292719074168444365510704342711559699508093042880177904174497792

  const LOWER_X: CodeUnit := 0x78 // 'x'
  const UPPER_X: CodeUnit := 0x58 // 'X'

  /** "The Number value for" an integer: itself when representable in range,
      otherwise the infinity of its sign. */
  function NumberOfInt(n: int): (r: Number)
    ensures r.Finite? <==> -OVERFLOW < n < OVERFLOW
    ensures r.Finite? ==> r.value == n
    ensures r.PositiveInfinity? <==> n >= OVERFLOW
    ensures r.NegativeInfinity? <==> n <= -OVERFLOW
  {
    if n >= OVERFLOW then PositiveInfinity
    else if n <= -OVERFLOW then NegativeInfinity
    else Finite(n)
  }

  /** The digit value of a code unit: `0`-`9` are 0-9, letters of either case
      are 10-35, anything else is 36 (a digit in no radix). */
  function DigitValue(c: CodeUnit): (d: nat)
    ensures d <= 36
    ensures d < 10 <==> ZERO <= c <= NINE
  {
    if ZERO <= c <= NINE then c - ZERO
    else if 0x61 <= c <= 0x7A then c - 0x61 + 10
    else if 0x41 <= c <= 0x5A then c - 0x41 + 10
    else 36
  }

  /** The longest prefix of `s` made of radix-`radix` digits. */
  function DigitPrefix(s: JsString, radix: nat): (d: JsString)
    ensures |d| <= |s| && d == s[..|d|]
    ensures forall k :: 0 <= k < |d| ==> DigitValue(d[k]) < radix
    ensures |d| < |s| ==> DigitValue(s[|d|]) >= radix
    decreases |s|
  {
    if |s| > 0 && DigitValue(s[0]) < radix then
      var d := [s[0]] + DigitPrefix(s[1..], radix);
      assert forall k :: 1 <= k < |d| ==> d[k] == s[1..][k - 1];
      d
    else []
  }

  /** The value of a digit string, most significant digit first. */
  function DigitsValue(d: JsString, radix: nat): nat
    decreases |d|
  {
    if d == [] then 0
    else DigitsValue(d[..|d| - 1], radix) * radix + DigitValue(d[|d| - 1])
  }

  /** `Number.parseInt(s, radix)`, with `radix` already converted by
      ToInt32; an absent radix is 0. Leading white space is skipped, one sign
      is read, a `0x`/`0X` prefix switches to hexadecimal when the radix is
      absent or 16, and the longest run of digits is read; no digit at all
      gives NaN. */
  function ParseInt(s: JsString, radix: int): (r: Number)
    ensures radix != 0 && (radix < 2 || radix > 36) ==> r.NaN?
    ensures AllWhiteSpace(s) ==> r.NaN?
    ensures r.Finite? && !IsNegative(TrimStart(s)) ==> r.value >= 0
    ensures r.Finite? && IsNegative(TrimStart(s)) ==> r.value <= 0
    ensures r.PositiveInfinity? ==> !IsNegative(TrimStart(s))
    ensures r.NegativeInfinity? ==> IsNegative(TrimStart(s))
  {
    if radix != 0 && (radix < 2 || radix > 36) then NaN
    else
      var t := TrimStart(s);
      var u := Unsigned(t);
      var digits := DigitPrefix(Body(u, radix), Base(u, radix));
      if digits == [] then NaN
      else
        var m: int := DigitsValue(digits, Base(u, radix));
        NumberOfInt(if IsNegative(t) then -m else m)
  }

  /** White space before the text changes nothing `parseInt` reads. */
  lemma {:induction false} ParseIntSkipsWhiteSpace(w: JsString, s: JsString, radix: int)
    requires AllWhiteSpace(w)
    ensures ParseInt(w + s, radix) == ParseInt(s, radix)
  {
    TrimStartAfterWhiteSpace(w, s);
  }

  predicate IsNegative(t: JsString) {
    |t| > 0 && t[0] == DASH
  }

  /** The text after one leading sign, if any. */
  function Unsigned(t: JsString): JsString {
    if |t| > 0 && (t[0] == PLUS || t[0] == DASH) then t[1..] else t
  }

  /** A `0x` or `0X` prefix is read when the radix is absent or 16. */
  predicate HasHexPrefix(u: JsString, radix: int) {
    (radix == 0 || radix == 16) && |u| >= 2 && u[0] == ZERO
    && (u[1] == LOWER_X || u[1] == UPPER_X)
  }

  /** The radix the digits are read in. */
  function Base(u: JsString, radix: int): nat {
    if HasHexPrefix(u, radix) then 16
    else if radix <= 0 then 10
    else radix
  }

  /** The text the digits are read from. */
  function Body(u: JsString, radix: int): JsString {
    if HasHexPrefix(u, radix) then u[2..] else u
  }

  /** The check `Number.isFinite(n) && !(n < 1)`: a finite value of at
      least 1. */
  predicate IsPositiveIndex(n: Number) {
    n.Finite? && n.value >= 1
  }

  /** The numeric order on Numbers other than NaN. */
  predicate AtMost(a: Number, b: Number)
    requires !a.NaN? && !b.NaN?
  {
    || a.NegativeInfinity?
    || b.PositiveInfinity?
    || (a.Finite? && b.Finite? && a.value <= b.value)
  }

  /** `Math.max(...ns)` for a non-empty list without NaN: a member of the
      list that no member exceeds. */
  function Max(ns: seq<Number>): (m: Number)
    requires |ns| > 0
    requires forall k :: 0 <= k < |ns| ==> !ns[k].NaN?
    ensures m in ns
    ensures forall k :: 0 <= k < |ns| ==> AtMost(ns[k], m)
  {
    if |ns| == 1 then ns[0]
    else
      var m := Max(ns[1..]);
      assert forall k :: 1 <= k < |ns| ==> ns[k] == ns[1..][k - 1];
      if AtMost(ns[0], m) then m else ns[0]
  }

  /** The decimal text of a natural number, as a template literal prints an
      integer index (no sign, no leading zero). */
  function DecimalText(n: nat): (s: JsString)
    ensures |s| > 0
    ensures forall k :: 0 <= k < |s| ==> ZERO <= s[k] <= NINE
    ensures |s| > 1 ==> s[0] != ZERO
  {
    if n < 10 then [ZERO + n] else DecimalText(n / 10) + [ZERO + n % 10]
  }

  /** Decimal text holds no dash and does not start with white space. */
  lemma {:induction false} DecimalTextIsPlain(n: nat)
    ensures DASH !in DecimalText(n) && !IsWhiteSpace(DecimalText(n)[0])
  {
    var d := DecimalText(n);
    assert ZERO <= d[0] <= NINE;
  }

  lemma {:induction false} DigitPrefixOfDigits(s: JsString, radix: nat)
    requires forall k :: 0 <= k < |s| ==> DigitValue(s[k]) < radix
    ensures DigitPrefix(s, radix) == s
    decreases |s|
  {
    if |s| > 0 {
      DigitPrefixOfDigits(s[1..], radix);
      assert s == [s[0]] + s[1..];
    }
  }

  lemma {:induction false} DigitsValueOfDecimalText(n: nat)
    ensures DigitsValue(DecimalText(n), 10) == n
  {
    var s := DecimalText(n);
    if n < 10 {
      assert s[..0] == [];
    } else {
      assert s[..|s| - 1] == DecimalText(n / 10);
      DigitsValueOfDecimalText(n / 10);
    }
  }

  /** A run of decimal digits, read with radix 10 or with no radix, is its
      decimal value. */
  lemma {:induction false} ParseIntOfDigits(s: JsString, radix: int)
    requires radix == 0 || radix == 10
    requires |s| > 0 && forall k :: 0 <= k < |s| ==> ZERO <= s[k] <= NINE
    ensures ParseInt(s, radix) == NumberOfInt(DigitsValue(s, 10))
  {
    TrimStartUnchanged(s);
    assert s[0] != PLUS && s[0] != DASH;
    assert !IsNegative(s) && Unsigned(s) == s;
    assert |s| >= 2 ==> s[1] != LOWER_X && s[1] != UPPER_X;
    assert !HasHexPrefix(s, radix);
    assert Base(s, radix) == 10 && Body(s, radix) == s;
    DigitPrefixOfDigits(s, 10);
  }

  /** `parseInt` with radix 10 reads the longest run of decimal digits after
      an optional sign, and ignores whatever follows it. */
  lemma {:induction false} ParseIntOfDigitPrefix(sign: JsString, d: JsString, rest: JsString)
    requires sign == [] || sign == [PLUS] || sign == [DASH]
    requires |d| > 0 && forall k :: 0 <= k < |d| ==> ZERO <= d[k] <= NINE
    requires rest == [] || DigitValue(rest[0]) >= 10
    ensures ParseInt(sign + d + rest, 10)
              == NumberOfInt(if sign == [DASH] then -(DigitsValue(d, 10) as int) else DigitsValue(d, 10))
  {
    var s := sign + d + rest;
    var u := d + rest;
    assert s == sign + u;
    assert s[0] == (if sign == [] then d[0] else sign[0]);
    TrimStartUnchanged(s);
    assert IsNegative(s) <==> sign == [DASH];
    assert Unsigned(s) == u;
    DigitPrefixOfRun(d, rest);
    ParseIntOfUnsignedDigits(s, d);
  }

  /** Text without leading white space whose unsigned part starts with the
      decimal run `d` is read with radix 10 as the value of `d`, negated
      after a minus sign. */
  lemma {:induction false} ParseIntOfUnsignedDigits(s: JsString, d: JsString)
    requires TrimStart(s) == s
    requires d != [] && DigitPrefix(Unsigned(s), 10) == d
    ensures ParseInt(s, 10)
              == NumberOfInt(if IsNegative(s) then -(DigitsValue(d, 10) as int) else DigitsValue(d, 10))
  {
  }

  /** The digit prefix of a run of decimal digits followed by a non-digit is
      that run. */
  lemma {:induction false} DigitPrefixOfRun(d: JsString, rest: JsString)
    requires forall k :: 0 <= k < |d| ==> ZERO <= d[k] <= NINE
    requires rest == [] || DigitValue(rest[0]) >= 10
    ensures DigitPrefix(d + rest, 10) == d
  {
    assert (d + rest)[..|d|] == d;
  }

  /** `parseInt` is NaN when, after white space and an optional sign, the
      text does not start with a digit of the radix (10 when it is absent). */
  lemma {:induction false} ParseIntWithoutDigit(s: JsString, radix: int)
    requires radix == 0 || 2 <= radix <= 36
    requires var u := Unsigned(TrimStart(s));
             u == [] || DigitValue(u[0]) >= (if radix == 0 then 10 else radix)
    ensures ParseInt(s, radix).NaN?
  {
    var u := Unsigned(TrimStart(s));
    assert !HasHexPrefix(u, radix);
    assert Body(u, radix) == u;
  }

  /** Reading back the decimal text of an index, with radix 10 or with no
      radix, gives the index. */
  lemma {:induction false} ParseIntDecimalText(n: nat)
    requires n < OVERFLOW
    ensures ParseInt(DecimalText(n), 10) == Finite(n)
    ensures ParseInt(DecimalText(n), 0) == Finite(n)
  {
    var s := DecimalText(n);
    DigitsValueOfDecimalText(n);
    assert NumberOfInt(DigitsValue(s, 10)) == Finite(n);
    ParseIntOfDigits(s, 10);
    ParseIntOfDigits(s, 0);
  }

  /** Without a radix, `parseInt` reads a `0x`-prefixed run of hexadecimal
      digits in base 16 ... */
  lemma {:induction false} HexPrefixWithoutRadix(d: JsString)
    requires |d| > 0 && forall k :: 0 <= k < |d| ==> DigitValue(d[k]) < 16
    ensures ParseInt([ZERO, LOWER_X] + d, 0) == NumberOfInt(DigitsValue(d, 16))
  {
    var s := [ZERO, LOWER_X] + d;
    assert s[0] == ZERO;
    TrimStartUnchanged(s);
    assert s[0] != PLUS && s[0] != DASH;
    assert !IsNegative(s) && Unsigned(s) == s;
    assert HasHexPrefix(s, 0);
    assert Base(s, 0) == 16;
    assert Body(s, 0) == d;
    DigitPrefixOfDigits(d, 16);
  }

  /** ... while with radix 10 the same text reads as its leading zero. */
  lemma {:induction false} HexPrefixWithRadixTen(d: JsString)
    ensures ParseInt([ZERO, LOWER_X] + d, 10) == Finite(0)
  {
    var s := [ZERO, LOWER_X] + d;
    assert s[0] == ZERO && s[1] == LOWER_X;
    TrimStartUnchanged(s);
    assert !IsNegative(s) && Unsigned(s) == s;
    assert !HasHexPrefix(s, 10);
    assert Base(s, 10) == 10 && Body(s, 10) == s;
    assert DigitPrefix(s[1..], 10) == [];
    assert DigitPrefix(s, 10) == [ZERO];
    assert [ZERO][..0] == [];
    assert DigitsValue([ZERO], 10) == 0;
  }
}
