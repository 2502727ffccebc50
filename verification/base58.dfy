/** The Base58 alphabet and the `bs58` codec. The codec itself is a library
    the model does not see: it is a pair of functions supplied by the caller,
    and what the wallet code relies on about it is stated as predicates that
    lemmas take as hypotheses. */
module Base58 {
  import opened JsText
  import opened Outcomes

  type Byte = b: int | 0 <= b < 0x100

  type Bytes = seq<Byte>

  /** The class `[1-9A-HJ-NP-Za-km-z]`: digits without `0`, letters without
      `I`, `O` and `l`. */
  predicate IsAlphabetChar(c: CodeUnit) {
    || (0x31 <= c <= 0x39)  // 1-9
    || (0x41 <= c <= 0x48)  // A-H
    || (0x4A <= c <= 0x4E)  // J-N
    || (0x50 <= c <= 0x5A)  // P-Z
    || (0x61 <= c <= 0x6B)  // a-k
    || (0x6D <= c <= 0x7A)  // m-z
  }

  /** Every character of `s` is in the alphabet. */
  predicate InAlphabet(s: JsString) {
    forall c :: c in s ==> IsAlphabetChar(c)
  }

  /** The test `/^[1-9A-HJ-NP-Za-km-z]+$/.test(s)`. */
  predicate IsBase58Text(s: JsString) {
    |s| > 0 && InAlphabet(s)
  }

  /** Neither the share separator nor any white space belongs to the
      alphabet. */
  lemma {:induction false} AlphabetExcludesSeparators(c: CodeUnit)
    requires IsAlphabetChar(c)
    ensures c != DASH && !IsWhiteSpace(c)
  {
  }

  /** `bs58.encode` and `bs58.decode`; a decode that throws is `None`. */
  datatype Codec = Codec(encode: Bytes -> JsString, decode: JsString -> Option<Bytes>)

  /** `encode` writes only alphabet characters. */
  ghost predicate EncodesInAlphabet(codec: Codec) {
    forall b: Bytes :: InAlphabet(codec.encode(b))
  }

  /** `decode` reads back what `encode` wrote. */
  ghost predicate DecodesEncoding(codec: Codec) {
    forall b: Bytes :: codec.decode(codec.encode(b)) == Some(b)
  }

  /** `decode` throws on any character outside the alphabet. */
  ghost predicate RejectsForeignChars(codec: Codec) {
    forall s: JsString, c :: c in s && !IsAlphabetChar(c) ==> codec.decode(s) == None
  }
}
