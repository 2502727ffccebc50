/** The textual share layer of lib/crypto.ts: `splitSecret` labels each
    share of the secret-sharing library as "<index>-<base58 payload>",
    `reconstructSecret` checks the share count and the two-field shape and
    hands the decoded payloads to the library, and
    `deriveWalletFromPrivateKey` accepts only 64-byte secret keys. The
    secret-sharing library, the Base58 codec and the Ed25519 keypair
    constructors are supplied by the caller. */
module ShareText {
  import opened JsText
  import opened JsNumber
  import opened Base58
  import opened Outcomes

  /** `sss.split(secret, {shares, threshold})` and `sss.combine(shares)` of
      the shamirs-secret-sharing package; a call that throws is `None`. */
  datatype Shamir = Shamir(
    split: (Bytes, int, int) -> Option<seq<Bytes>>,
    combine: seq<Bytes> -> Option<Bytes>)

  /** A Solana keypair: the 64-byte secret key and the Base58 text of the
      public key. */
  datatype Keypair = Keypair(secretKey: Bytes, publicKey: JsString)

  /** Every library the share layer calls. `fromSecretKey` and `fromSeed`
      are `Keypair.fromSecretKey` and `Keypair.fromSeed`; `None` when they
      throw. */
  datatype Libraries = Libraries(
    bs58: Codec,
    sss: Shamir,
    fromSecretKey: Bytes -> Option<Keypair>,
    fromSeed: Bytes -> Option<Keypair>)

  /** The errors `splitSecret` and `reconstructSecret` throw. */
  datatype CryptoError =
    | SecretNotBase58                   // bs58.decode of the secret threw
    | SplitRejected                     // sss.split threw
    | TooFewShares                      // "At least 2 shares required"
    | ShareFormatInvalid(position: nat) // "Share <position> format is invalid"
    | PayloadNotBase58                  // bs58.decode of a payload threw
    | CombineRejected                   // sss.combine threw

  /** The text of the share at 0-based position `i`: `${i + 1}-${bs58}`. */
  function ShareLabel(codec: Codec, i: nat, share: Bytes): (r: JsString)
    ensures |r| > |codec.encode(share)| && ZERO <= r[0] <= NINE
  {
    DecimalText(i + 1) + [DASH] + codec.encode(share)
  }

  /** A label holds exactly one dash more than its payload: the one that
      separates the index from the payload. */
  lemma {:induction false} ShareLabelDashes(codec: Codec, i: nat, share: Bytes)
    ensures Count(ShareLabel(codec, i, share), DASH) == Count(codec.encode(share), DASH) + 1
  {
    var d := DecimalText(i + 1);
    DecimalTextIsPlain(i + 1);
    CountAppend(d, [DASH], DASH);
    CountAppend(d + [DASH], codec.encode(share), DASH);
  }

  /** `splitSecret(secretBase58, totalShares, threshold)`: decode the secret,
      split it with the library and label every share in library order. */
  function SplitSecret(libs: Libraries, secret: JsString, total: int, threshold: int)
    : (r: Result<seq<JsString>, CryptoError>)
    ensures r == Failure(SecretNotBase58) <==> libs.bs58.decode(secret).None?
    ensures r == Failure(SplitRejected)
            <==> libs.bs58.decode(secret).Some?
                 && libs.sss.split(libs.bs58.decode(secret).value, total, threshold).None?
    ensures r.Success? ==>
              var shares := libs.sss.split(libs.bs58.decode(secret).value, total, threshold).value;
              && |r.value| == |shares|
              && forall i :: 0 <= i < |shares| ==> r.value[i] == ShareLabel(libs.bs58, i, shares[i])
  {
    match libs.bs58.decode(secret)
    case None => Failure(SecretNotBase58)
    case Some(bytes) =>
      match libs.sss.split(bytes, total, threshold)
      case None => Failure(SplitRejected)
      case Some(shares) =>
        Success(seq(|shares|, i requires 0 <= i < |shares| => ShareLabel(libs.bs58, i, shares[i])))
  }

  /** The check `s.trim().split("-").length === 2`. */
  predicate HasShareShape(s: JsString) {
    |Split(Trim(s), DASH)| == 2
  }

  /** The first field `parts[0]` of a well-shaped share. */
  function IndexField(s: JsString): JsString
    requires HasShareShape(s)
  {
    Split(Trim(s), DASH)[0]
  }

  /** The second field `parts[1]` of a well-shaped share. */
  function Payload(s: JsString): JsString
    requires HasShareShape(s)
  {
    Split(Trim(s), DASH)[1]
  }

  /** One step of the `shares.map(...)` of `reconstructSecret` for the entry
      at 1-based `position`: the shape check comes first, then the payload
      decode. */
  function DecodeEntry(codec: Codec, s: JsString, position: nat): (r: Result<Bytes, CryptoError>)
    ensures r.Success? ==> HasShareShape(s) && codec.decode(Payload(s)) == Some(r.value)
    ensures r.Failure? ==> r.error == ShareFormatInvalid(position) || r.error == PayloadNotBase58
    ensures r == Failure(ShareFormatInvalid(position)) <==> !HasShareShape(s)
    ensures r == Failure(PayloadNotBase58) <==> HasShareShape(s) && codec.decode(Payload(s)).None?
  {
    if !HasShareShape(s) then Failure(ShareFormatInvalid(position))
    else
      match codec.decode(Payload(s))
      case None => Failure(PayloadNotBase58)
      case Some(buf) => Success(buf)
  }

  /** DecodeEntry for one codec, as the function `shares.map` applies. */
  function EntryStep(codec: Codec): (JsString, nat) -> Result<Bytes, CryptoError> {
    (s: JsString, position: nat) => DecodeEntry(codec, s, position)
  }

  /** The `shares.map(...)` of `reconstructSecret`: each entry is trimmed,
      split, checked and decoded before the next one is looked at, so the
      first entry with a problem decides the error. */
  function DecodePayloads(codec: Codec, shares: seq<JsString>): (r: Result<seq<Bytes>, CryptoError>)
    ensures r.Success? <==> forall k :: 0 <= k < |shares| ==> DecodeEntry(codec, shares[k], k + 1).Success?
    ensures r.Success? ==>
              && |r.value| == |shares|
              && forall k :: 0 <= k < |shares| ==> DecodeEntry(codec, shares[k], k + 1) == Success(r.value[k])
    ensures r.Failure? ==> exists k :: FirstFailure(EntryStep(codec), shares, 0, k, r.error)
  {
    MapInOrder(EntryStep(codec), shares, 0)
  }

  /** `reconstructSecret(shares)`: fewer than two entries are refused before
      any is parsed; otherwise the payloads are decoded in order, combined by
      the library and the secret is Base58-encoded. */
  function ReconstructSecret(libs: Libraries, shares: seq<JsString>): (r: Result<JsString, CryptoError>)
    ensures r == Failure(TooFewShares) <==> |shares| < 2
    ensures r.Success? ==>
              var bufs := DecodePayloads(libs.bs58, shares);
              && |shares| >= 2
              && bufs.Success?
              && libs.sss.combine(bufs.value).Some?
              && r.value == libs.bs58.encode(libs.sss.combine(bufs.value).value)
    ensures r.Failure? && |shares| >= 2 && r.error != CombineRejected ==>
              exists k :: FirstFailure(EntryStep(libs.bs58), shares, 0, k, r.error)
    ensures r == Failure(CombineRejected) ==>
              && DecodePayloads(libs.bs58, shares).Success?
              && libs.sss.combine(DecodePayloads(libs.bs58, shares).value).None?
  {
    if |shares| < 2 then Failure(TooFewShares)
    else
      match DecodePayloads(libs.bs58, shares)
      case Failure(e) => Failure(e)
      case Success(bufs) =>
        match libs.sss.combine(bufs)
        case None => Failure(CombineRejected)
        case Some(secret) => Success(libs.bs58.encode(secret))
  }

  /** A format error names the 1-based position of the first entry without
      the two-field shape, and every entry before it has the shape. */
  lemma {:induction false} FormatErrorNamesFirstBadEntry(libs: Libraries, shares: seq<JsString>)
    requires ReconstructSecret(libs, shares).Failure?
    requires ReconstructSecret(libs, shares).error.ShareFormatInvalid?
    ensures var p := ReconstructSecret(libs, shares).error.position;
            && 1 <= p <= |shares|
            && !HasShareShape(shares[p - 1])
            && forall j :: 0 <= j < p - 1 ==> HasShareShape(shares[j])
  {
    var e := ReconstructSecret(libs, shares).error;
    var k :| FirstFailure(EntryStep(libs.bs58), shares, 0, k, e);
    assert DecodeEntry(libs.bs58, shares[k], k + 1) == Failure(e);
    forall j | 0 <= j < k
      ensures HasShareShape(shares[j])
    {
      assert DecodeEntry(libs.bs58, shares[j], j + 1).Success?;
    }
  }

  /** The value handed to `sss.combine` depends only on the payload fields:
      two share lists of the same length whose entries agree on shape and on
      payload reconstruct identically, whatever their index fields say. */
  lemma {:induction false} DecodeIgnoresIndexField(codec: Codec, a: seq<JsString>, b: seq<JsString>)
    requires |a| == |b|
    requires forall k :: 0 <= k < |a| ==> HasShareShape(a[k]) == HasShareShape(b[k])
    requires forall k :: 0 <= k < |a| && HasShareShape(a[k]) ==> Payload(a[k]) == Payload(b[k])
    ensures DecodePayloads(codec, a) == DecodePayloads(codec, b)
  {
    forall k | 0 <= k < |a|
      ensures EntryStep(codec)(a[k], k + 1) == EntryStep(codec)(b[k], k + 1)
    {
      assert DecodeEntry(codec, a[k], k + 1) == DecodeEntry(codec, b[k], k + 1);
    }
    MapInOrderPointwise(EntryStep(codec), a, b, 0);
  }

  lemma {:induction false} ReconstructIgnoresIndexField(libs: Libraries, a: seq<JsString>, b: seq<JsString>)
    requires |a| == |b|
    requires forall k :: 0 <= k < |a| ==> HasShareShape(a[k]) == HasShareShape(b[k])
    requires forall k :: 0 <= k < |a| && HasShareShape(a[k]) ==> Payload(a[k]) == Payload(b[k])
    ensures ReconstructSecret(libs, a) == ReconstructSecret(libs, b)
  {
    DecodeIgnoresIndexField(libs.bs58, a, b);
  }

  /** The Base58 text of a share holds no dash, has no white space to trim
      and, unless empty, passes the alphabet test. */
  lemma {:induction false} EncodingIsDashFree(codec: Codec, share: Bytes)
    requires InAlphabet(codec.encode(share))
    ensures DASH !in codec.encode(share)
    ensures Trim(codec.encode(share)) == codec.encode(share)
    ensures |codec.encode(share)| > 0 ==> IsBase58Text(codec.encode(share))
  {
    var p := codec.encode(share);
    if DASH in p {
      AlphabetExcludesSeparators(DASH);
    }
    if |p| > 0 {
      assert p[0] in p && p[|p| - 1] in p;
      AlphabetExcludesSeparators(p[0]);
      AlphabetExcludesSeparators(p[|p| - 1]);
    }
    TrimUnchanged(p);
  }

  /** A share label is already trimmed and splits into its decimal index and
      its Base58 payload. */
  lemma {:induction false} ShareLabelFields(codec: Codec, i: nat, share: Bytes)
    requires InAlphabet(codec.encode(share))
    ensures Trim(ShareLabel(codec, i, share)) == ShareLabel(codec, i, share)
    ensures Split(ShareLabel(codec, i, share), DASH) == [DecimalText(i + 1), codec.encode(share)]
  {
    var d := DecimalText(i + 1);
    var p := codec.encode(share);
    var s := ShareLabel(codec, i, share);
    assert DASH !in d;
    EncodingIsDashFree(codec, share);
    SplitTwo(d, p, DASH);
    assert s[0] == d[0];
    assert |p| > 0 ==> s[|s| - 1] == p[|p| - 1];
    TrimUnchanged(s);
  }

  /** Hence a share label has the two-field shape and its payload is the
      Base58 text of the share. */
  lemma {:induction false} ShareLabelPayload(codec: Codec, i: nat, share: Bytes)
    requires InAlphabet(codec.encode(share))
    ensures HasShareShape(ShareLabel(codec, i, share))
    ensures Payload(ShareLabel(codec, i, share)) == codec.encode(share)
  {
    ShareLabelFields(codec, i, share);
  }

  /** The index field of a share label reads back with `parseInt(_, 10)` as
      the 1-based position. */
  lemma {:induction false} ShareLabelIndex(codec: Codec, i: nat, share: Bytes)
    requires InAlphabet(codec.encode(share))
    requires i < MAX_ARRAY_LENGTH
    ensures ParseInt(Split(Trim(ShareLabel(codec, i, share)), DASH)[0], 10) == Finite(i + 1)
  {
    ShareLabelFields(codec, i, share);
    ParseIntDecimalText(i + 1);
  }

  /** Reconstructing from the complete output of `splitSecret` hands
      `sss.combine` exactly the shares `sss.split` produced, in order, when
      the Base58 codec reads back what it writes. */
  lemma {:induction false} SplitThenReconstruct(libs: Libraries, secret: JsString, total: int, threshold: int)
    requires EncodesInAlphabet(libs.bs58) && DecodesEncoding(libs.bs58)
    requires SplitSecret(libs, secret, total, threshold).Success?
    requires 2 <= |SplitSecret(libs, secret, total, threshold).value| <= MAX_ARRAY_LENGTH
    ensures var shares := libs.sss.split(libs.bs58.decode(secret).value, total, threshold).value;
            ReconstructSecret(libs, SplitSecret(libs, secret, total, threshold).value)
            == match libs.sss.combine(shares)
               case None => Failure(CombineRejected)
               case Some(s) => Success(libs.bs58.encode(s))
  {
    var texts := SplitSecret(libs, secret, total, threshold).value;
    var shares := libs.sss.split(libs.bs58.decode(secret).value, total, threshold).value;
    forall k | 0 <= k < |texts|
      ensures HasShareShape(texts[k]) && Payload(texts[k]) == libs.bs58.encode(shares[k])
    {
      assert texts[k] == ShareLabel(libs.bs58, k, shares[k]);
      ShareLabelPayload(libs.bs58, k, shares[k]);
    }
    var r := DecodePayloads(libs.bs58, texts);
    forall k | 0 <= k < |texts|
      ensures EntryStep(libs.bs58)(texts[k], k + 1) == Success(shares[k])
    {
      assert DecodeEntry(libs.bs58, texts[k], k + 1) == Success(shares[k]);
    }
    assert r.Success?;
    assert r.value == shares;
  }

  /** The cause inside "Invalid Solana private key format: <cause>". */
  datatype KeyFault =
    | KeyNotBase58   // bs58.decode threw
    | KeyNot64Bytes  // "Invalid Solana private key length - must be 64 bytes"
    | KeyRejected    // Keypair.fromSecretKey threw

  /** Every failure of `deriveWalletFromPrivateKey` is rethrown with the
      prefix "Invalid Solana private key format:". */
  datatype DeriveError = InvalidKeyFormat(cause: KeyFault)

  datatype Wallet = Wallet(privateKey: JsString, publicKey: JsString, address: JsString)

  /** `deriveWalletFromPrivateKey(privateKey)`. */
  function DeriveWallet(libs: Libraries, privateKey: JsString): (r: Result<Wallet, DeriveError>)
    ensures r.Success? <==>
              && libs.bs58.decode(privateKey).Some?
              && |libs.bs58.decode(privateKey).value| == 64
              && libs.fromSecretKey(libs.bs58.decode(privateKey).value).Some?
    ensures r.Success? ==>
              && r.value.privateKey == privateKey
              && r.value.address == r.value.publicKey
              && r.value.publicKey == libs.fromSecretKey(libs.bs58.decode(privateKey).value).value.publicKey
    ensures libs.bs58.decode(privateKey).None? ==> r == Failure(InvalidKeyFormat(KeyNotBase58))
    ensures libs.bs58.decode(privateKey).Some? && |libs.bs58.decode(privateKey).value| != 64
            ==> r == Failure(InvalidKeyFormat(KeyNot64Bytes))
    ensures libs.bs58.decode(privateKey).Some? && |libs.bs58.decode(privateKey).value| == 64
            && libs.fromSecretKey(libs.bs58.decode(privateKey).value).None?
            ==> r == Failure(InvalidKeyFormat(KeyRejected))
  {
    match libs.bs58.decode(privateKey)
    case None => Failure(InvalidKeyFormat(KeyNotBase58))
    case Some(secretKey) =>
      if |secretKey| != 64 then Failure(InvalidKeyFormat(KeyNot64Bytes))
      else
        match libs.fromSecretKey(secretKey)
        case None => Failure(InvalidKeyFormat(KeyRejected))
        case Some(keypair) => Success(Wallet(privateKey, keypair.publicKey, keypair.publicKey))
  }
}
