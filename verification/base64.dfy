/** The browser's `btoa` and `atob`. `btoa` reads every code unit of its
    argument as one byte and writes the Base64 encoding of section 4 of
    RFC 4648, with `=` padding; it throws InvalidCharacterError on a code
    unit above 0xFF. `atob` is the "forgiving-base64 decode" of the WHATWG
    Infra standard: ASCII white space is ignored, the padding may be left
    out, and the result is one code unit per decoded byte. */
module Base64 {
  import opened JsText
  import opened Outcomes

  /** Every code unit is a byte value: a "binary string". */
  predicate IsLatin1(s: JsString) {
    forall k :: 0 <= k < |s| ==> s[k] < 0x100
  }

  /** The character for a 6-bit value: `A`-`Z`, `a`-`z`, `0`-`9`, `+`, `/`. */
  function Digit(v: nat): (c: CodeUnit)
    requires v < 64
  {
    if v < 26 then 0x41 + v
    else if v < 52 then 0x61 + (v - 26)
    else if v < 62 then 0x30 + (v - 52)
    else if v == 62 then 0x2B
    else 0x2F
  }

  /** The 6-bit value of an alphabet character; `None` for anything else,
      including the padding character. */
  function Sextet(c: CodeUnit): (r: Option<nat>)
    ensures r.Some? ==> r.value < 64 && Digit(r.value) == c
  {
    if 0x41 <= c <= 0x5A then Some(c - 0x41)
    else if 0x61 <= c <= 0x7A then Some(c - 0x61 + 26)
    else if 0x30 <= c <= 0x39 then Some(c - 0x30 + 52)
    else if c == 0x2B then Some(62)
    else if c == 0x2F then Some(63)
    else None
  }

  /** Reading back a written digit gives its value. */
  lemma {:induction false} SextetOfDigit(v: nat)
    requires v < 64
    ensures Sextet(Digit(v)) == Some(v)
  {
  }

  predicate InBase64Alphabet(s: JsString) {
    forall k :: 0 <= k < |s| ==> Sextet(s[k]).Some?
  }

  /** ASCII white space as the Infra standard defines it: TAB, LF, FF, CR
      and SPACE. */
  predicate IsAsciiWhiteSpace(c: CodeUnit) {
    c == 0x09 || c == 0x0A || c == 0x0C || c == 0x0D || c == SPACE
  }

  /** The 6-bit values of the encoding without padding: four for every
      three bytes, then two for a last single byte or three for a last
      pair, the missing low bits being zero. */
  function Sextets(s: JsString): (r: seq<nat>)
    requires IsLatin1(s)
    ensures forall k :: 0 <= k < |r| ==> r[k] < 64
    ensures |r| == |s| / 3 * 4 + (if |s| % 3 == 0 then 0 else |s| % 3 + 1)
    decreases |s|
  {
    if |s| == 0 then []
    else if |s| == 1 then [s[0] / 4, s[0] % 4 * 16]
    else if |s| == 2 then [s[0] / 4, s[0] % 4 * 16 + s[1] / 16, s[1] % 16 * 4]
    else
      var head := [s[0] / 4, s[0] % 4 * 16 + s[1] / 16, s[1] % 16 * 4 + s[2] / 64, s[2] % 64];
      var rest := Sextets(s[3..]);
      assert forall k :: 4 <= k < |head + rest| ==> (head + rest)[k] == rest[k - 4];
      head + rest
  }

  /** The encoding without padding, one alphabet character per value. */
  function Unpadded(s: JsString): (r: JsString)
    requires IsLatin1(s)
    ensures InBase64Alphabet(r)
    ensures |r| == |Sextets(s)|
  {
    var v := Sextets(s);
    var r := seq(|v|, k requires 0 <= k < |v| => Digit(v[k]));
    assert forall k :: 0 <= k < |r| ==> Sextet(r[k]) == Some(v[k]) by {
      forall k | 0 <= k < |r| ensures Sextet(r[k]) == Some(v[k]) {
        SextetOfDigit(v[k]);
      }
    }
    r
  }

  /** The `=` characters that complete the last group of four. */
  function Padding(n: nat): JsString
    requires n < 3
  {
    if n == 0 then [] else if n == 1 then [EQUALS, EQUALS] else [EQUALS]
  }

  /** `btoa(s)`: `None` is the InvalidCharacterError thrown for a code unit
      above 0xFF. */
  function Btoa(s: JsString): (r: Option<JsString>)
    ensures r.None? <==> !IsLatin1(s)
    ensures r.Some? ==> |r.value| == (|s| + 2) / 3 * 4
    ensures r.Some? ==> InBase64Alphabet(StripPadding(r.value))
  {
    if IsLatin1(s) then
      StripPaddingOfEncoding(s);
      EncodingLength(s);
      Some(Unpadded(s) + Padding(|s| % 3))
    else None
  }

  /** The input without its ASCII white space. */
  function RemoveAsciiWhiteSpace(s: JsString): (r: JsString)
    ensures |r| <= |s|
    ensures forall k :: 0 <= k < |r| ==> !IsAsciiWhiteSpace(r[k])
    ensures (forall k :: 0 <= k < |s| ==> !IsAsciiWhiteSpace(s[k])) ==> r == s
    decreases |s|
  {
    if s == [] then []
    else
      var rest := RemoveAsciiWhiteSpace(s[1..]);
      if IsAsciiWhiteSpace(s[0]) then rest
      else
        assert forall k :: 1 <= k < |[s[0]] + rest| ==> ([s[0]] + rest)[k] == rest[k - 1];
        [s[0]] + rest
  }

  /** One or two trailing `=` removed, as `atob` does when the length is a
      multiple of four. */
  function StripPadding(t: JsString): (r: JsString)
    ensures |r| <= |t| && r == t[..|r|] && |t| - 2 <= |r|
  {
    if |t| >= 2 && t[|t| - 2] == EQUALS && t[|t| - 1] == EQUALS then t[..|t| - 2]
    else if |t| >= 1 && t[|t| - 1] == EQUALS then t[..|t| - 1]
    else t
  }

  /** The values of a text of alphabet characters. */
  function Values(u: JsString): (v: seq<nat>)
    requires InBase64Alphabet(u)
    ensures |v| == |u|
    ensures forall k :: 0 <= k < |v| ==> v[k] < 64 && Sextet(u[k]) == Some(v[k])
  {
    seq(|u|, k requires 0 <= k < |u| => Sextet(u[k]).value)
  }

  /** The bytes of padding-free Base64 values, three for every four values
      and one or two for a last group of two or three. The bits a short last
      group leaves over are dropped, whatever their value. */
  function DecodeValues(v: seq<nat>): (r: JsString)
    requires forall k :: 0 <= k < |v| ==> v[k] < 64
    requires |v| % 4 != 1
    ensures IsLatin1(r)
    ensures |r| == DecodedLength(|v|)
    decreases |v|
  {
    if |v| == 0 then []
    else if |v| == 2 then [v[0] * 4 + v[1] / 16]
    else if |v| == 3 then [v[0] * 4 + v[1] / 16, v[1] % 16 * 16 + v[2] / 4]
    else
      var head := [v[0] * 4 + v[1] / 16, v[1] % 16 * 16 + v[2] / 4, v[2] % 4 * 64 + v[3]];
      var rest := DecodeValues(v[4..]);
      assert forall k :: 3 <= k < |head + rest| ==> (head + rest)[k] == rest[k - 3];
      head + rest
  }

  /** The number of bytes `n` padding-free values stand for: three per
      group of four, and one less than the values of a last short group. */
  function DecodedLength(n: nat): nat {
    n / 4 * 3 + (if n % 4 == 0 then 0 else n % 4 - 1)
  }

  /** What `atob` decodes: the input without white space and, when that
      length is a multiple of four, without one or two trailing `=`. */
  function AtobDigits(s: JsString): (u: JsString)
    ensures forall k :: 0 <= k < |u| ==> !IsAsciiWhiteSpace(u[k])
    ensures |RemoveAsciiWhiteSpace(s)| % 4 != 0 ==> u == RemoveAsciiWhiteSpace(s)
  {
    var t := RemoveAsciiWhiteSpace(s);
    if |t| % 4 == 0 then StripPadding(t) else t
  }

  /** `atob(s)`: white space removed, padding stripped from a text whose
      length is a multiple of four, then a length that leaves one character
      over or any character outside the alphabet is an error (`None`, the
      InvalidCharacterError); otherwise three bytes for every four
      characters. */
  function Atob(s: JsString): (r: Option<JsString>)
    ensures r.None? <==> |AtobDigits(s)| % 4 == 1 || !InBase64Alphabet(AtobDigits(s))
    ensures r.Some? ==> IsLatin1(r.value) && |r.value| == DecodedLength(|AtobDigits(s)|)
  {
    var u := AtobDigits(s);
    if |u| % 4 == 1 || !InBase64Alphabet(u) then None
    else Some(DecodeValues(Values(u)))
  }

  /** Decoding undoes the digit arithmetic of one group. */
  lemma {:induction false} GroupRoundTrip(b0: nat, b1: nat, b2: nat)
    requires b0 < 0x100 && b1 < 0x100 && b2 < 0x100
    ensures (b0 / 4) * 4 + (b0 % 4 * 16 + b1 / 16) / 16 == b0
    ensures (b0 % 4 * 16 + b1 / 16) % 16 * 16 + (b1 % 16 * 4 + b2 / 64) / 4 == b1
    ensures (b1 % 16 * 4 + b2 / 64) % 4 * 64 + b2 % 64 == b2
  {
  }

  /** Two values decode to one byte. */
  lemma {:induction false} DecodePair(a: nat, b: nat)
    requires a < 64 && b < 64
    ensures DecodeValues([a, b]) == [a * 4 + b / 16]
  {
  }

  /** Three values decode to two bytes. */
  lemma {:induction false} DecodeTriple(a: nat, b: nat, c: nat)
    requires a < 64 && b < 64 && c < 64
    ensures DecodeValues([a, b, c]) == [a * 4 + b / 16, b % 16 * 16 + c / 4]
  {
  }

  /** Four values decode to three bytes, ahead of the rest. */
  lemma {:induction false} DecodeQuad(a: nat, b: nat, c: nat, d: nat, rest: seq<nat>)
    requires a < 64 && b < 64 && c < 64 && d < 64
    requires (forall k :: 0 <= k < |rest| ==> rest[k] < 64) && |rest| % 4 != 1
    ensures DecodeValues([a, b, c, d] + rest)
            == [a * 4 + b / 16, b % 16 * 16 + c / 4, c % 4 * 64 + d] + DecodeValues(rest)
  {
    assert ([a, b, c, d] + rest)[4..] == rest;
  }

  /** The values of a full group of three bytes decode back to them, ahead
      of the decoding of the rest. */
  lemma {:induction false} DecodeFullGroup(s: JsString)
    requires IsLatin1(s) && |s| >= 3
    ensures DecodeValues(Sextets(s)) == s[..3] + DecodeValues(Sextets(s[3..]))
  {
    var a, b, c, d := s[0] / 4, s[0] % 4 * 16 + s[1] / 16, s[1] % 16 * 4 + s[2] / 64, s[2] % 64;
    var rest := Sextets(s[3..]);
    assert Sextets(s) == [a, b, c, d] + rest;
    DecodeQuad(a, b, c, d, rest);
    GroupRoundTrip(s[0], s[1], s[2]);
    assert [a * 4 + b / 16, b % 16 * 16 + c / 4, c % 4 * 64 + d] == s[..3];
  }

  /** The values of a last group of one or two bytes decode back to it. */
  lemma {:induction false} DecodeLastGroup(s: JsString)
    requires IsLatin1(s) && 1 <= |s| <= 2
    ensures DecodeValues(Sextets(s)) == s
  {
    if |s| == 2 {
      var a, b, c := s[0] / 4, s[0] % 4 * 16 + s[1] / 16, s[1] % 16 * 4;
      assert Sextets(s) == [a, b, c];
      DecodeTriple(a, b, c);
      GroupRoundTrip(s[0], s[1], 0);
      assert [a * 4 + b / 16, b % 16 * 16 + c / 4] == s;
    } else {
      var a, b := s[0] / 4, s[0] % 4 * 16;
      assert Sextets(s) == [a, b];
      DecodePair(a, b);
      GroupRoundTrip(s[0], 0, 0);
      assert [a * 4 + b / 16] == s;
    }
  }

  /** The values of the encoding decode back to the bytes they encode. */
  lemma {:induction false} DecodeSextets(s: JsString)
    requires IsLatin1(s)
    ensures DecodeValues(Sextets(s)) == s
    decreases |s|
  {
    if |s| >= 3 {
      DecodeFullGroup(s);
      DecodeSextets(s[3..]);
      assert s == s[..3] + s[3..];
    } else if |s| > 0 {
      DecodeLastGroup(s);
    }
  }

  /** Reading the characters of the encoding gives back its values. */
  lemma {:induction false} ValuesOfUnpadded(s: JsString)
    requires IsLatin1(s)
    ensures Values(Unpadded(s)) == Sextets(s)
  {
    var u := Unpadded(s);
    var v := Sextets(s);
    forall k | 0 <= k < |v| ensures Values(u)[k] == v[k] {
      SextetOfDigit(v[k]);
    }
  }

  /** Stripping the padding of a `btoa` output leaves the digits. */
  lemma {:induction false} StripPaddingOfEncoding(s: JsString)
    requires IsLatin1(s)
    ensures StripPadding(Unpadded(s) + Padding(|s| % 3)) == Unpadded(s)
  {
    var u := Unpadded(s);
    if |s| == 0 {
      assert u + Padding(0) == [];
    } else {
      assert Sextet(u[|u| - 1]).Some?;
      StripPaddingOf(u, Padding(|s| % 3));
    }
  }

  /** Stripping removes exactly the padding after digits. */
  lemma {:induction false} StripPaddingOf(u: JsString, p: JsString)
    requires p == [] || p == [EQUALS] || p == [EQUALS, EQUALS]
    requires |u| > 0 && Sextet(u[|u| - 1]).Some?
    ensures StripPadding(u + p) == u
  {
    assert (u + p)[..|u|] == u;
    assert (u + p)[|u| - 1] == u[|u| - 1];
  }

  /** A `btoa` output holds no white space. */
  lemma {:induction false} EncodingHasNoWhiteSpace(s: JsString)
    requires IsLatin1(s)
    ensures RemoveAsciiWhiteSpace(Unpadded(s) + Padding(|s| % 3)) == Unpadded(s) + Padding(|s| % 3)
  {
    var u := Unpadded(s);
    var t := u + Padding(|s| % 3);
    forall k | 0 <= k < |t| ensures !IsAsciiWhiteSpace(t[k]) {
      if k < |u| {
        assert Sextet(u[k]).Some?;
      }
    }
  }

  /** A `btoa` output fills its last group of four. */
  lemma {:induction false} EncodingLength(s: JsString)
    requires IsLatin1(s)
    ensures |Unpadded(s) + Padding(|s| % 3)| == (|s| + 2) / 3 * 4
    ensures |Unpadded(s) + Padding(|s| % 3)| % 4 == 0
  {
  }

  /** What `atob` decodes of a `btoa` output is its digits. */
  lemma {:induction false} AtobDigitsOfEncoding(s: JsString)
    requires IsLatin1(s)
    ensures AtobDigits(Unpadded(s) + Padding(|s| % 3)) == Unpadded(s)
  {
    EncodingHasNoWhiteSpace(s);
    EncodingLength(s);
    StripPaddingOfEncoding(s);
    AtobDigitsOfPadded(Unpadded(s) + Padding(|s| % 3), Unpadded(s));
  }

  /** A text without white space, of a length divisible by four, is
      decoded as its padding-free part. */
  lemma {:induction false} AtobDigitsOfPadded(t: JsString, u: JsString)
    requires RemoveAsciiWhiteSpace(t) == t && |t| % 4 == 0 && StripPadding(t) == u
    ensures AtobDigits(t) == u
  {
  }

  /** `atob` reads back what `btoa` wrote: for every binary string `s`,
      `atob(btoa(s)) === s`. */
  lemma {:induction false} AtobBtoa(s: JsString)
    requires IsLatin1(s)
    ensures Atob(Btoa(s).value) == Some(s)
  {
    var u := Unpadded(s);
    assert Btoa(s).value == u + Padding(|s| % 3);
    AtobDigitsOfEncoding(s);
    ValuesOfUnpadded(s);
    DecodeSextets(s);
  }
}
