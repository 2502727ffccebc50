/** The legacy backup format of lib/storage.ts: the wallet's public data as
    JSON, XOR-ed with the password cycled over its length, then Base64
    (`btoa`). JSON itself is a library the model does not see: a pair of
    functions supplied by the caller. */
module BackupCipher {
  import opened JsText
  import opened Outcomes
  import opened Bitwise
  import opened Base64
  import opened ShareConfig

  /** The wallet object the create page builds: the generated keys, the
      labelled shares and the configuration used. */
  datatype WalletData = WalletData(
    privateKey: JsString,
    publicKey: JsString,
    address: JsString,
    shares: seq<JsString>,
    config: Config)

  /** The object that is serialised: these five properties and no others.
      As read back by the decrypt page, `shares` and `config` may be
      missing; `None` stands for an absent property. */
  datatype Document = Document(
    config: Option<Config>,
    address: JsString,
    publicKey: JsString,
    shares: Option<seq<JsString>>,
    timestamp: int)

  /** The value `JSON.parse` returns, as far as the decrypt page tells
      values apart: `null`, an object with the document's properties, or
      anything else (a number, a string, an array...), on which `.shares`
      is `undefined`. */
  datatype JsonValue = JsonNull | JsonObject(document: Document) | JsonOther

  /** `JSON.stringify` on a document and `JSON.parse`; a parse that throws
      is `None`. */
  datatype Json = Json(stringify: Document -> JsString, parse: JsString -> Option<JsonValue>)

  /** `JSON.parse` reads back what `JSON.stringify` wrote. */
  ghost predicate ParseReadsStringify(json: Json) {
    forall d: Document :: json.parse(json.stringify(d)) == Some(JsonObject(d))
  }

  /** `btoa` threw: some XOR-ed code unit is above 0xFF. */
  datatype EncryptError = InvalidCharacter

  /** "Failed to decrypt data - incorrect password or corrupted data": every
      failure of decryption is reported as this one error. */
  datatype DecryptError = DecryptFailed

  /** `dataToEncrypt`: the wallet's properties except the private key, and
      the time of the call (`Date.now()`, a parameter here). */
  function DocumentOf(w: WalletData, timestamp: int): (d: Document)
    ensures d.config == Some(w.config) && d.shares == Some(w.shares)
    ensures d.address == w.address && d.publicKey == w.publicKey && d.timestamp == timestamp
  {
    Document(Some(w.config), w.address, w.publicKey, Some(w.shares), timestamp)
  }

  /** `password.charCodeAt(i % password.length)`, as an operand of `^`. For
      an empty password `i % 0` is NaN, `charCodeAt(NaN)` reads index 0 of
      the empty string and gives NaN, and `^` reads NaN as 0. */
  function KeyUnit(password: JsString, i: nat): (u: CodeUnit)
    ensures |password| > 0 ==> u == password[i % |password|]
    ensures |password| == 0 ==> u == 0
  {
    if |password| == 0 then 0 else password[i % |password|]
  }

  /** `x ^ y` on two code units, which `String.fromCharCode` keeps as is. */
  function XorUnit(x: CodeUnit, y: CodeUnit): (r: CodeUnit)
    ensures x < 0x100 && y < 0x100 ==> r < 0x100
  {
    Pow2Values();
    XorBelow(x, y, 16);
    if x < 0x100 && y < 0x100 then XorBelow(x, y, 8); Xor(x, y) else Xor(x, y)
  }

  lemma {:induction false} Pow2Values()
    ensures Pow2(8) == 0x100 && Pow2(16) == 0x1_0000
  {
    assert Pow2(4) == 16 by {
      assert Pow2(2) == 4 by {
        assert Pow2(1) == 2;
      }
    }
    assert Pow2(8) == 0x100 by {
      assert Pow2(6) == 64 by {
        assert Pow2(5) == 32;
      }
      assert Pow2(7) == 128;
    }
    assert Pow2(12) == 0x1000 by {
      assert Pow2(10) == 0x400 by {
        assert Pow2(9) == 0x200;
      }
      assert Pow2(11) == 0x800;
    }
    assert Pow2(14) == 0x4000 by {
      assert Pow2(13) == 0x2000;
    }
    assert Pow2(15) == 0x8000;
  }

  /** The loop of both `encryptWalletData` and `decryptWalletData`: unit `i`
      of the text XOR-ed with unit `i % length` of the password. */
  function XorCycle(s: JsString, password: JsString): (r: JsString)
    ensures |r| == |s|
    ensures forall k :: 0 <= k < |s| ==> r[k] == XorUnit(s[k], KeyUnit(password, k))
  {
    seq(|s|, k requires 0 <= k < |s| => XorUnit(s[k], KeyUnit(password, k)))
  }

  /** Applying the cipher twice with the same password gives the text back,
      for every password, the empty one included (for which the cipher
      changes nothing). */
  lemma {:induction false} XorCycleInvolution(s: JsString, password: JsString)
    ensures XorCycle(XorCycle(s, password), password) == s
  {
    var once := XorCycle(s, password);
    var twice := XorCycle(once, password);
    forall k | 0 <= k < |s| ensures twice[k] == s[k] {
      XorSelfInverse(s[k], KeyUnit(password, k));
    }
  }

  /** With an empty password the cipher is the identity. */
  lemma {:induction false} EmptyPasswordIsIdentity(s: JsString)
    ensures XorCycle(s, []) == s
  {
    forall k | 0 <= k < |s| ensures XorCycle(s, [])[k] == s[k] {
      XorZero(s[k]);
    }
  }

  /** A byte text XOR-ed with a byte password stays a byte text. */
  lemma {:induction false} XorCycleKeepsLatin1(s: JsString, password: JsString)
    requires IsLatin1(s) && IsLatin1(password)
    ensures IsLatin1(XorCycle(s, password))
  {
    var r := XorCycle(s, password);
    forall k | 0 <= k < |s| ensures r[k] < 0x100 {
      if |password| > 0 {
        assert KeyUnit(password, k) == password[k % |password|];
      }
    }
  }

  /** `encryptWalletData(walletData, password)` at time `timestamp`: `btoa`
      throws when a XOR-ed unit is above 0xFF. */
  function Encrypt(json: Json, w: WalletData, password: JsString, timestamp: int): (r: Result<JsString, EncryptError>)
    ensures r.Failure? <==> !IsLatin1(XorCycle(json.stringify(DocumentOf(w, timestamp)), password))
    ensures r.Success? ==> Atob(r.value) == Some(XorCycle(json.stringify(DocumentOf(w, timestamp)), password))
  {
    var text := json.stringify(DocumentOf(w, timestamp));
    var cipher := XorCycle(text, password);
    match Btoa(cipher)
    case None => Failure(InvalidCharacter)
    case Some(c) =>
      AtobBtoa(cipher);
      Success(c)
  }

  /** `decryptWalletData(encryptedData, password)`: `atob`, the XOR cycle,
      `JSON.parse`; a throw from `atob` or `JSON.parse` becomes the single
      decryption error. */
  function Decrypt(json: Json, encrypted: JsString, password: JsString): (r: Result<JsonValue, DecryptError>)
    ensures r.Success? <==>
              Atob(encrypted).Some? && json.parse(XorCycle(Atob(encrypted).value, password)).Some?
    ensures r.Success? ==> r.value == json.parse(XorCycle(Atob(encrypted).value, password)).value
  {
    match Atob(encrypted)
    case None => Failure(DecryptFailed)
    case Some(binary) =>
      match json.parse(XorCycle(binary, password))
      case None => Failure(DecryptFailed)
      case Some(v) => Success(v)
  }

  /** Encryption cannot fail when the serialised document and the password
      are byte texts. */
  lemma {:induction false} EncryptAcceptsLatin1(json: Json, w: WalletData, password: JsString, timestamp: int)
    requires IsLatin1(json.stringify(DocumentOf(w, timestamp))) && IsLatin1(password)
    ensures Encrypt(json, w, password, timestamp).Success?
  {
    XorCycleKeepsLatin1(json.stringify(DocumentOf(w, timestamp)), password);
  }

  /** Decrypting a backup with the password it was made with gives back the
      document that was written. */
  lemma {:induction false} DecryptEncrypt(json: Json, w: WalletData, password: JsString, timestamp: int)
    requires ParseReadsStringify(json)
    ensures Encrypt(json, w, password, timestamp).Success? ==>
              Decrypt(json, Encrypt(json, w, password, timestamp).value, password)
              == Success(JsonObject(DocumentOf(w, timestamp)))
  {
    if Encrypt(json, w, password, timestamp).Success? {
      XorCycleInvolution(json.stringify(DocumentOf(w, timestamp)), password);
    }
  }

  /** The private key never reaches the backup: wallets that differ only in
      it give the same ciphertext. */
  lemma {:induction false} EncryptIgnoresPrivateKey(json: Json, w: WalletData, key: JsString, password: JsString, timestamp: int)
    ensures Encrypt(json, w, password, timestamp) == Encrypt(json, w.(privateKey := key), password, timestamp)
  {
    assert DocumentOf(w, timestamp) == DocumentOf(w.(privateKey := key), timestamp);
  }
}
