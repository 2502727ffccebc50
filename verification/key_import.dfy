/** The import form (components/wallet-import.tsx,
    `handleImportFromPrivateKey`): the pasted private key is read as Base58
    first and, when that throws, as hexadecimal text; the bytes obtained
    must be a 32-byte seed or a 64-byte secret key, from which the keypair
    is rebuilt and the Base58 secret key split into shares. */
module KeyImport {
  import opened JsText
  import opened JsNumber
  import opened Base58
  import opened Outcomes
  import opened ShareConfig
  import opened ShareText
  import opened BackupCipher

  const LOWER_A: CodeUnit := 0x61 // 'a'

  /** Why no key comes out of the text. */
  datatype ImportError =
    | EmptyKey        // "Please enter a private key"
    | KeyLengthInvalid // "Key must be 32 or 64 bytes (Base58 or Hex)"
    | NoHexPairs      // `hex.match(/.{2}/g)` is null, so `.map` throws a TypeError

  /** The length test on the decoded bytes. */
  function CheckLength(b: Bytes): (r: Result<Bytes, ImportError>)
    ensures r.Success? <==> |b| == 32 || |b| == 64
    ensures r.Success? ==> r.value == b
    ensures r.Failure? ==> r.error == KeyLengthInvalid
  {
    if |b| == 32 || |b| == 64 then Success(b) else Failure(KeyLengthInvalid)
  }

  /** `replace(/^0x/, "")`: one leading `0x` (lower-case `x` only). */
  function StripHexPrefix(t: JsString): (r: JsString)
    ensures StartsWith(t, [ZERO, LOWER_X]) ==> t == [ZERO, LOWER_X] + r
    ensures !StartsWith(t, [ZERO, LOWER_X]) ==> r == t
  {
    if StartsWith(t, [ZERO, LOWER_X]) then
      assert t == t[..2] + t[2..];
      t[2..]
    else t
  }

  /** `s.match(/.{2}/g)`: from left to right, every pair of adjacent code
      units neither of which is a line terminator (the regular-expression
      `.` matches no line terminator); the search resumes after each match
      and one unit further after each failed attempt. The empty list stands
      for `null`. */
  function MatchPairs(s: JsString): (r: seq<JsString>)
    ensures forall k :: 0 <= k < |r| ==> |r[k]| == 2
    ensures |r| <= |s| / 2
    decreases |s|
  {
    if |s| < 2 then []
    else if !IsLineTerminator(s[0]) && !IsLineTerminator(s[1]) then
      var rest := MatchPairs(s[2..]);
      assert forall k :: 1 <= k < |[s[..2]] + rest| ==> ([s[..2]] + rest)[k] == rest[k - 1];
      [s[..2]] + rest
    else MatchPairs(s[1..])
  }

  /** `new Uint8Array([...])` stores a Number by ToUint8: NaN and the
      infinities become 0, an integer is taken modulo 256. */
  function ToUint8(n: Number): (b: Byte)
    ensures n.Finite? && 0 <= n.value < 0x100 ==> b == n.value
    ensures n.Finite? ==> b == n.value % 0x100 && (b - n.value) % 0x100 == 0
    ensures !n.Finite? ==> b == 0
  {
    if n.Finite? then n.value % 0x100 else 0
  }

  /** `hex.match(/.{2}/g).map((b) => Number.parseInt(b, 16))` stored in a
      Uint8Array. */
  function HexBytes(pairs: seq<JsString>): (b: Bytes)
    ensures |b| == |pairs|
    ensures forall k :: 0 <= k < |b| ==> b[k] == ToUint8(ParseInt(pairs[k], 16))
  {
    seq(|pairs|, k requires 0 <= k < |pairs| => ToUint8(ParseInt(pairs[k], 16)))
  }

  /** The hexadecimal fallback on the trimmed key. An odd length leaves no
      key, which is reported by the length test. */
  function HexFallback(t: JsString): (r: Result<Bytes, ImportError>)
    ensures |StripHexPrefix(t)| % 2 != 0 ==> r == Failure(KeyLengthInvalid)
    ensures |StripHexPrefix(t)| % 2 == 0 && MatchPairs(StripHexPrefix(t)) == [] ==> r == Failure(NoHexPairs)
    ensures |StripHexPrefix(t)| % 2 == 0 && MatchPairs(StripHexPrefix(t)) != [] ==>
              r == CheckLength(HexBytes(MatchPairs(StripHexPrefix(t))))
    ensures r.Success? ==>
              && |r.value| == |MatchPairs(StripHexPrefix(t))|
              && forall k :: 0 <= k < |r.value| ==> r.value[k] == ToUint8(ParseInt(MatchPairs(StripHexPrefix(t))[k], 16))
  {
    var hex := StripHexPrefix(t);
    if |hex| % 2 != 0 then Failure(KeyLengthInvalid)
    else
      var pairs := MatchPairs(hex);
      if pairs == [] then Failure(NoHexPairs)
      else CheckLength(HexBytes(pairs))
  }

  /** The secret key bytes the form derives from the pasted text. A blank
      text is refused before anything is decoded; Base58 is tried first and
      decides alone whenever it succeeds; hexadecimal is tried only when
      Base58 throws. */
  function NormalizeKey(codec: Codec, key: JsString): (r: Result<Bytes, ImportError>)
    ensures r == Failure(EmptyKey) <==> IsBlank(key)
    ensures !IsBlank(key) && codec.decode(Trim(key)).Some? ==>
              r == CheckLength(codec.decode(Trim(key)).value)
    ensures !IsBlank(key) && codec.decode(Trim(key)).None? ==> r == HexFallback(Trim(key))
    ensures r.Success? ==> |r.value| == 32 || |r.value| == 64
  {
    var t := Trim(key);
    if t == [] then Failure(EmptyKey)
    else
      match codec.decode(t)
      case Some(b) => CheckLength(b)
      case None => HexFallback(t)
  }

  /** The lower-case hexadecimal digit of a value below 16. */
  function HexDigit(v: nat): (c: CodeUnit)
    requires v < 16
    ensures DigitValue(c) == v
  {
    if v < 10 then ZERO + v else LOWER_A + (v - 10)
  }

  /** Two lower-case hexadecimal digits per byte, most significant first. */
  function HexText(b: Bytes): (s: JsString)
    ensures |s| == 2 * |b|
    ensures forall k :: 0 <= k < |b| ==> s[2 * k] == HexDigit(b[k] / 16) && s[2 * k + 1] == HexDigit(b[k] % 16)
    ensures forall i :: 0 <= i < |s| ==> DigitValue(s[i]) < 16
    decreases |b|
  {
    if b == [] then []
    else
      var rest := HexText(b[1..]);
      var s := [HexDigit(b[0] / 16), HexDigit(b[0] % 16)] + rest;
      forall k | 1 <= k < |b| ensures s[2 * k] == HexDigit(b[k] / 16) && s[2 * k + 1] == HexDigit(b[k] % 16) {
        assert b[k] == b[1..][k - 1];
        assert s[2 * k] == rest[2 * (k - 1)];
        assert s[2 * k + 1] == rest[2 * (k - 1) + 1];
      }
      assert forall i :: 2 <= i < |s| ==> s[i] == rest[i - 2];
      s
  }

  /** A text without line terminators and of even length is matched pair by
      pair: half as many pairs as units, pair `k` being units `2k` and
      `2k + 1`. */
  lemma {:induction false} MatchPairsOfPlainText(s: JsString)
    requires |s| % 2 == 0
    requires forall k :: 0 <= k < |s| ==> !IsLineTerminator(s[k])
    ensures |MatchPairs(s)| == |s| / 2
    ensures forall k :: 0 <= k < |s| / 2 ==> MatchPairs(s)[k] == s[2 * k..2 * k + 2]
    decreases |s|
  {
    if |s| >= 2 {
      var rest := s[2..];
      MatchPairsOfPlainText(rest);
      assert MatchPairs(s) == [s[..2]] + MatchPairs(rest);
      forall k | 1 <= k < |s| / 2 ensures MatchPairs(s)[k] == s[2 * k..2 * k + 2] {
        assert MatchPairs(s)[k] == MatchPairs(rest)[k - 1];
        assert rest[2 * (k - 1)..2 * (k - 1) + 2] == s[2 * k..2 * k + 2];
      }
    }
  }

  /** Hexadecimal text without line terminators gives one byte per two
      units: after the optional `0x`, 64 units make a seed and 128 a secret
      key, and any other non-empty even length is refused by the length
      test. */
  lemma {:induction false} HexFallbackLength(t: JsString)
    requires |StripHexPrefix(t)| > 0 && |StripHexPrefix(t)| % 2 == 0
    requires forall k :: 0 <= k < |StripHexPrefix(t)| ==> !IsLineTerminator(StripHexPrefix(t)[k])
    ensures HexFallback(t).Success? <==> |StripHexPrefix(t)| == 64 || |StripHexPrefix(t)| == 128
    ensures HexFallback(t).Failure? ==> HexFallback(t).error == KeyLengthInvalid
  {
    MatchPairsOfPlainText(StripHexPrefix(t));
  }

  /** Two hexadecimal digits read with radix 16 give their value. */
  lemma {:induction false} ParseHexDigits(h: CodeUnit, l: CodeUnit)
    requires DigitValue(h) < 16 && DigitValue(l) < 16
    ensures ParseInt([h, l], 16) == Finite(DigitValue(h) * 16 + DigitValue(l))
  {
    var s := [h, l];
    assert !IsWhiteSpace(s[0]);
    TrimStartUnchanged(s);
    assert !IsNegative(s) && Unsigned(s) == s;
    assert !HasHexPrefix(s, 16);
    assert Base(s, 16) == 16 && Body(s, 16) == s;
    DigitPrefixOfDigits(s, 16);
    assert s[..1] == [h] && [h][..0] == [];
    assert DigitsValue([h], 16) == DigitValue(h);
    assert DigitsValue(s, 16) == DigitsValue([h], 16) * 16 + DigitValue(l);
  }

  /** The two digits `HexText` writes for a byte read back as that byte. */
  lemma {:induction false} ParseHexPair(v: Byte)
    ensures ToUint8(ParseInt([HexDigit(v / 16), HexDigit(v % 16)], 16)) == v
  {
    ParseHexDigits(HexDigit(v / 16), HexDigit(v % 16));
  }

  /** Pair `k` of such a text, unit by unit. */
  lemma {:induction false} PlainTextPair(s: JsString, k: nat)
    requires |s| % 2 == 0 && k < |s| / 2
    requires forall i :: 0 <= i < |s| ==> !IsLineTerminator(s[i])
    ensures |MatchPairs(s)| == |s| / 2
    ensures MatchPairs(s)[k] == [s[2 * k], s[2 * k + 1]]
  {
    MatchPairsOfPlainText(s);
    assert s[2 * k..2 * k + 2] == [s[2 * k], s[2 * k + 1]];
  }

  /** The hexadecimal text of a key is matched as one pair of digits per
      byte. */
  lemma {:induction false} HexTextPairs(b: Bytes)
    ensures |MatchPairs(HexText(b))| == |b|
    ensures forall k :: 0 <= k < |b| ==> MatchPairs(HexText(b))[k] == [HexDigit(b[k] / 16), HexDigit(b[k] % 16)]
  {
    var s := HexText(b);
    assert forall i :: 0 <= i < |s| ==> !IsLineTerminator(s[i]);
    MatchPairsOfPlainText(s);
    forall k | 0 <= k < |b| ensures MatchPairs(s)[k] == [HexDigit(b[k] / 16), HexDigit(b[k] % 16)] {
      PlainTextPair(s, k);
    }
  }

  /** The hexadecimal text of a key decodes back to the key. */
  lemma {:induction false} HexBytesOfHexText(b: Bytes)
    ensures HexBytes(MatchPairs(HexText(b))) == b
  {
    var pairs := MatchPairs(HexText(b));
    HexTextPairs(b);
    forall k | 0 <= k < |b| ensures HexBytes(pairs)[k] == b[k] {
      ParseHexPair(b[k]);
    }
  }

  /** The hexadecimal fallback reads `0x` and lower-case hexadecimal as the
      bytes written, when there are 32 or 64 of them. */
  lemma {:induction false} HexFallbackOfHexText(b: Bytes)
    requires |b| == 32 || |b| == 64
    ensures HexFallback([ZERO, LOWER_X] + HexText(b)) == Success(b)
  {
    var key := [ZERO, LOWER_X] + HexText(b);
    assert StartsWith(key, [ZERO, LOWER_X]) && key[2..] == HexText(b);
    HexBytesOfHexText(b);
  }

  /** A 32- or 64-byte key written as `0x` and lower-case hexadecimal is
      imported as exactly those bytes, when the Base58 codec throws on the
      `0`, which is outside its alphabet. */
  lemma {:induction false} HexKeyRoundTrip(codec: Codec, b: Bytes)
    requires RejectsForeignChars(codec)
    requires |b| == 32 || |b| == 64
    ensures NormalizeKey(codec, [ZERO, LOWER_X] + HexText(b)) == Success(b)
  {
    var hex := HexText(b);
    var key := [ZERO, LOWER_X] + hex;
    assert hex[|hex| - 1] == HexDigit(b[|b| - 1] % 16);
    assert key[|key| - 1] == hex[|hex| - 1];
    TrimUnchanged(key);
    BlankIffAllWhiteSpace(key);
    assert key[0] == ZERO && !IsAlphabetChar(ZERO);
    assert codec.decode(key) == None;
    HexFallbackOfHexText(b);
  }

  /** A key whose trimmed text Base58 decodes to 32 or 64 bytes is
      imported as those bytes. */
  lemma {:induction false} DecodableKey(codec: Codec, key: JsString, b: Bytes)
    requires !IsBlank(key)
    requires codec.decode(Trim(key)) == Some(b)
    requires |b| == 32 || |b| == 64
    ensures NormalizeKey(codec, key) == Success(b)
  {
    assert NormalizeKey(codec, key) == CheckLength(b);
  }

  /** A 32- or 64-byte key pasted as its Base58 text is imported as exactly
      those bytes. */
  lemma {:induction false} Base58KeyRoundTrip(codec: Codec, b: Bytes)
    requires EncodesInAlphabet(codec) && DecodesEncoding(codec)
    requires |codec.encode(b)| > 0
    requires |b| == 32 || |b| == 64
    ensures NormalizeKey(codec, codec.encode(b)) == Success(b)
  {
    var p := codec.encode(b);
    assert InAlphabet(p);
    assert p[0] in p && p[|p| - 1] in p;
    AlphabetExcludesSeparators(p[0]);
    AlphabetExcludesSeparators(p[|p| - 1]);
    TrimUnchanged(p);
    DecodableKey(codec, p, b);
  }

  /** Why the import stopped after the key was read. */
  datatype ImportFailure =
    | KeyFailure(ImportError)
    | KeypairRejected        // `Keypair.fromSecretKey` or `Keypair.fromSeed` threw
    | SplitFailed(CryptoError)

  /** The rest of `handleImportFromPrivateKey`: a 64-byte key is a secret
      key and is kept as it was decoded, a 32-byte key is a seed whose
      keypair supplies the secret key; the Base58 secret key is split with
      the form's configuration. */
  function ImportWallet(libs: Libraries, config: Config, key: JsString): (r: Result<WalletData, ImportFailure>)
    ensures NormalizeKey(libs.bs58, key).Failure? ==> r == Failure(KeyFailure(NormalizeKey(libs.bs58, key).error))
    ensures r.Success? ==>
              && NormalizeKey(libs.bs58, key).Success?
              && r.value.config == config
              && r.value.address == r.value.publicKey
              && SplitSecret(libs, r.value.privateKey, config.totalShares, config.threshold) == Success(r.value.shares)
    ensures r.Success? && |NormalizeKey(libs.bs58, key).value| == 64 ==>
              && r.value.privateKey == libs.bs58.encode(NormalizeKey(libs.bs58, key).value)
              && libs.fromSecretKey(NormalizeKey(libs.bs58, key).value).Some?
              && r.value.publicKey == libs.fromSecretKey(NormalizeKey(libs.bs58, key).value).value.publicKey
    ensures r.Success? && |NormalizeKey(libs.bs58, key).value| == 32 ==>
              && libs.fromSeed(NormalizeKey(libs.bs58, key).value).Some?
              && r.value.privateKey == libs.bs58.encode(libs.fromSeed(NormalizeKey(libs.bs58, key).value).value.secretKey)
              && r.value.publicKey == libs.fromSeed(NormalizeKey(libs.bs58, key).value).value.publicKey
    ensures var n := NormalizeKey(libs.bs58, key);
            n.Success? ==>
              var keypair := if |n.value| == 64 then libs.fromSecretKey(n.value) else libs.fromSeed(n.value);
              keypair.None? ==> r == Failure(KeypairRejected)
    ensures var n := NormalizeKey(libs.bs58, key);
            n.Success? ==>
              var keypair := if |n.value| == 64 then libs.fromSecretKey(n.value) else libs.fromSeed(n.value);
              keypair.Some? ==>
              var privateKey := libs.bs58.encode(if |n.value| == 64 then n.value else keypair.value.secretKey);
              && (SplitSecret(libs, privateKey, config.totalShares, config.threshold).Failure? ==>
                    r == Failure(SplitFailed(SplitSecret(libs, privateKey, config.totalShares, config.threshold).error)))
              && (SplitSecret(libs, privateKey, config.totalShares, config.threshold).Success? ==> r.Success?)
  {
    match NormalizeKey(libs.bs58, key)
    case Failure(e) => Failure(KeyFailure(e))
    case Success(secret) =>
      // `Keypair.fromSecretKey` for 64 bytes, `Keypair.fromSeed` otherwise
      match if |secret| == 64 then libs.fromSecretKey(secret) else libs.fromSeed(secret)
      case None => Failure(KeypairRejected)
      case Some(keypair) =>
        var privateKey := libs.bs58.encode(if |secret| == 64 then secret else keypair.secretKey);
        match SplitSecret(libs, privateKey, config.totalShares, config.threshold)
        case Failure(e) => Failure(SplitFailed(e))
        case Success(shares) => Success(WalletData(privateKey, keypair.publicKey, keypair.publicKey, shares, config))
  }

  /** An imported 64-byte secret key is accepted again by
      `deriveWalletFromPrivateKey`, which rebuilds the same public key and
      address. */
  lemma {:induction false} ImportedKeyDerives(libs: Libraries, config: Config, key: JsString)
    requires DecodesEncoding(libs.bs58)
    requires ImportWallet(libs, config, key).Success?
    requires |NormalizeKey(libs.bs58, key).value| == 64
    ensures DeriveWallet(libs, ImportWallet(libs, config, key).value.privateKey)
            == Success(Wallet(ImportWallet(libs, config, key).value.privateKey,
                              ImportWallet(libs, config, key).value.publicKey,
                              ImportWallet(libs, config, key).value.address))
  {
    var secret := NormalizeKey(libs.bs58, key).value;
    assert libs.bs58.decode(libs.bs58.encode(secret)) == Some(secret);
  }

  /** What Ed25519 guarantees of the keypair constructors: the keypair of a
      seed has a 64-byte secret key from which `fromSecretKey` rebuilds the
      same keypair. */
  ghost predicate SeedKeypairsAgree(libs: Libraries) {
    forall seed: Bytes :: libs.fromSeed(seed).Some? ==>
      && |libs.fromSeed(seed).value.secretKey| == 64
      && libs.fromSecretKey(libs.fromSeed(seed).value.secretKey) == libs.fromSeed(seed)
  }

  /** A wallet imported from a 32-byte seed keeps the seed's 64-byte secret
      key, which `deriveWalletFromPrivateKey` accepts again with the same
      public key and address. */
  lemma {:induction false} ImportedSeedDerives(libs: Libraries, config: Config, key: JsString)
    requires DecodesEncoding(libs.bs58) && SeedKeypairsAgree(libs)
    requires ImportWallet(libs, config, key).Success?
    requires |NormalizeKey(libs.bs58, key).value| == 32
    ensures DeriveWallet(libs, ImportWallet(libs, config, key).value.privateKey)
            == Success(Wallet(ImportWallet(libs, config, key).value.privateKey,
                              ImportWallet(libs, config, key).value.publicKey,
                              ImportWallet(libs, config, key).value.address))
  {
    var seed := NormalizeKey(libs.bs58, key).value;
    var keypair := libs.fromSeed(seed).value;
    assert libs.bs58.decode(libs.bs58.encode(keypair.secretKey)) == Some(keypair.secretKey);
    assert libs.fromSecretKey(keypair.secretKey) == Some(keypair);
  }
}
