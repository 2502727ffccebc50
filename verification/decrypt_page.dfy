/** The backup decryption page (app/decrypt/page.tsx): fetch an encrypted
    backup by its IPFS hash (step 1 to 2), decrypt it with a password (step
    2 to 3), then show or hide each share. The gateway fetch is a
    parameter. */
module DecryptPage {
  import opened JsText
  import opened Outcomes
  import opened Visibility
  import opened BackupCipher
  import opened Base64
  import CreatePage

  const LOWER_F: CodeUnit := 0x66 // 'f'
  const LOWER_H: CodeUnit := 0x68 // 'h'
  const LOWER_I: CodeUnit := 0x69 // 'i'
  const LOWER_P: CodeUnit := 0x70 // 'p'
  const LOWER_S: CodeUnit := 0x73 // 's'
  const LOWER_T: CodeUnit := 0x74 // 't'

  const HTTP: JsString := [LOWER_H, LOWER_T, LOWER_T, LOWER_P]
  const SCHEME_END: JsString := [COLON, SLASH, SLASH]
  const IPFS_PATH: JsString := [SLASH, LOWER_I, LOWER_P, LOWER_F, LOWER_S, SLASH]

  /** The longest prefix of `s` without a `/`. */
  function Host(s: JsString): (h: JsString)
    ensures |h| <= |s| && h == s[..|h|]
    ensures SLASH !in h
    ensures |h| < |s| ==> s[|h|] == SLASH
    decreases |s|
  {
    if |s| == 0 || s[0] == SLASH then []
    else
      var h := [s[0]] + Host(s[1..]);
      assert forall k :: 1 <= k < |h| ==> h[k] == s[1..][k - 1];
      h
  }

  /** The text after `http://` or `https://`, if `t` starts with either. */
  function AfterScheme(t: JsString): (r: Option<JsString>)
    ensures r.Some? <==> StartsWith(t, HTTP + SCHEME_END) || StartsWith(t, HTTP + [LOWER_S] + SCHEME_END)
    ensures r.Some? && StartsWith(t, HTTP + SCHEME_END) ==> r.value == t[7..]
    ensures r.Some? && !StartsWith(t, HTTP + SCHEME_END) ==> r.value == t[8..]
  {
    if StartsWith(t, HTTP + SCHEME_END) then Some(t[7..])
    else if StartsWith(t, HTTP + [LOWER_S] + SCHEME_END) then Some(t[8..])
    else None
  }

  /** `http://` or `https://`. */
  function Scheme(secure: bool): (s: JsString)
    ensures |s| == (if secure then 8 else 7)
  {
    HTTP + (if secure then [LOWER_S] else []) + SCHEME_END
  }

  /** `t` is the gateway URL `http(s)://<host>/ipfs/<cid>` with a non-empty
      host free of `/`: the text the pattern `^https?:\/\/[^/]+\/ipfs\/`
      matches, followed by `cid`. */
  predicate IsGatewayUrl(t: JsString, secure: bool, host: JsString, cid: JsString) {
    |host| > 0 && SLASH !in host && t == Scheme(secure) + host + IPFS_PATH + cid
  }

  /** How the pattern reads a gateway URL: the scheme, then the host up to
      the first `/`, then `/ipfs/` and the identifier. */
  lemma {:induction false} GatewayUrlParts(secure: bool, host: JsString, cid: JsString)
    requires |host| > 0 && SLASH !in host
    ensures var rest := host + IPFS_PATH + cid;
            && AfterScheme(Scheme(secure) + rest) == Some(rest)
            && Host(rest) == host
            && StartsWith(rest[|host|..], IPFS_PATH)
            && rest[|host| + 6..] == cid
  {
    var rest := host + IPFS_PATH + cid;
    var url := Scheme(secure) + rest;
    if secure {
      assert !StartsWith(url, HTTP + SCHEME_END) by {
        assert url[4] == LOWER_S;
      }
      assert url[..8] == HTTP + [LOWER_S] + SCHEME_END;
      assert url[8..] == rest;
    } else {
      assert url[..7] == HTTP + SCHEME_END;
      assert url[7..] == rest;
    }
    HostOfPrefix(host, IPFS_PATH + cid);
    assert rest == host + (IPFS_PATH + cid);
    assert rest[|host|..] == IPFS_PATH + cid;
    assert (IPFS_PATH + cid)[..6] == IPFS_PATH;
  }

  /** Every way of reading `t` as a gateway URL agrees with the scheme, host
      and path that StripGateway finds. */
  lemma {:induction false} GatewayUrlsRead(t: JsString)
    ensures forall secure, host, cid :: IsGatewayUrl(t, secure, host, cid) ==>
              && AfterScheme(t) == Some(host + IPFS_PATH + cid)
              && Host(host + IPFS_PATH + cid) == host
              && StartsWith((host + IPFS_PATH + cid)[|host|..], IPFS_PATH)
              && (host + IPFS_PATH + cid)[|host| + 6..] == cid
  {
    forall secure, host, cid | IsGatewayUrl(t, secure, host, cid)
      ensures && AfterScheme(t) == Some(host + IPFS_PATH + cid)
              && Host(host + IPFS_PATH + cid) == host
              && StartsWith((host + IPFS_PATH + cid)[|host|..], IPFS_PATH)
              && (host + IPFS_PATH + cid)[|host| + 6..] == cid
    {
      assert t == Scheme(secure) + (host + IPFS_PATH + cid);
      GatewayUrlParts(secure, host, cid);
    }
  }

  /** A text that starts with its host followed by `/ipfs/` is made of the
      two and what follows. */
  lemma {:induction false} PathParts(rest: JsString, host: JsString)
    requires host == Host(rest) && StartsWith(rest[|host|..], IPFS_PATH)
    ensures rest == host + IPFS_PATH + rest[|host| + 6..]
  {
    assert rest == rest[..|host|] + rest[|host|..];
    assert rest[|host|..] == rest[|host|..][..6] + rest[|host| + 6..];
  }

  /** A text in which StripGateway finds the scheme, a non-empty host and
      `/ipfs/` is the gateway URL of what follows them. */
  lemma {:induction false} GatewayMatch(t: JsString, rest: JsString)
    requires AfterScheme(t) == Some(rest)
    requires |Host(rest)| > 0 && StartsWith(rest[|Host(rest)|..], IPFS_PATH)
    ensures IsGatewayUrl(t, !StartsWith(t, HTTP + SCHEME_END), Host(rest), rest[|Host(rest)| + 6..])
  {
    PathParts(rest, Host(rest));
    SchemeParts(t, rest);
  }

  /** A text that starts with a scheme is the scheme and what follows. */
  lemma {:induction false} SchemeParts(t: JsString, rest: JsString)
    requires AfterScheme(t) == Some(rest)
    ensures t == Scheme(!StartsWith(t, HTTP + SCHEME_END)) + rest
  {
    var secure := !StartsWith(t, HTTP + SCHEME_END);
    assert t == t[..|Scheme(secure)|] + t[|Scheme(secure)|..];
  }

  /** `replace(/^https?:\/\/[^/]+\/ipfs\//, "")`: a gateway URL's scheme,
      host and `/ipfs/` are dropped, once, leaving its identifier; any other
      text is kept as it is. The host is the longest run without `/`; no
      shorter run can be followed by `/`, so the pattern cannot match in any
      other way. */
  function StripGateway(t: JsString): (r: JsString)
    ensures r != t ==> exists secure, host :: IsGatewayUrl(t, secure, host, r)
    ensures forall secure, host, cid :: IsGatewayUrl(t, secure, host, cid) ==> r == cid
  {
    GatewayUrlsRead(t);
    match AfterScheme(t)
    case None => t
    case Some(rest) =>
      if |Host(rest)| > 0 && StartsWith(rest[|Host(rest)|..], IPFS_PATH) then
        GatewayMatch(t, rest);
        rest[|Host(rest)| + 6..]
      else t
  }

  /** `ipfsHash.trim()` with the gateway prefix dropped: the identifier of a
      trimmed gateway URL, otherwise the trimmed text. */
  function CleanHash(hash: JsString): (r: JsString)
    ensures r != Trim(hash) ==> exists secure, host :: IsGatewayUrl(Trim(hash), secure, host, r)
    ensures forall secure, host, cid :: IsGatewayUrl(Trim(hash), secure, host, cid) ==> r == cid
  {
    StripGateway(Trim(hash))
  }

  /** A text is changed exactly when it is a gateway URL. */
  lemma {:induction false} StripGatewayChangesOnlyUrls(t: JsString)
    ensures StripGateway(t) == t <==> forall secure, host, cid :: !IsGatewayUrl(t, secure, host, cid)
  {
    forall secure, host, cid | IsGatewayUrl(t, secure, host, cid)
      ensures StripGateway(t) != t
    {
      assert |t| == |Scheme(secure)| + |host| + 6 + |cid|;
    }
  }

  /** A text not starting with `http` is kept as it is. */
  lemma {:induction false} StripGatewayOfPlainText(t: JsString)
    requires !StartsWith(t, HTTP)
    ensures StripGateway(t) == t
  {
    assert (HTTP + SCHEME_END)[..4] == HTTP;
    assert (HTTP + [LOWER_S] + SCHEME_END)[..4] == HTTP;
  }

  /** The content identifier of a gateway URL `http(s)://<host>/ipfs/<cid>`,
      whatever the host, as long as it is non-empty and has no `/`. */
  lemma {:induction false} StripGatewayOfUrl(secure: bool, host: JsString, cid: JsString)
    requires |host| > 0 && SLASH !in host
    ensures StripGateway(Scheme(secure) + host + IPFS_PATH + cid) == cid
  {
    assert IsGatewayUrl(Scheme(secure) + host + IPFS_PATH + cid, secure, host, cid);
  }

  /** A hash not starting with `http` once trimmed is only trimmed. */
  lemma {:induction false} CleanHashOfPlainHash(hash: JsString)
    requires !StartsWith(Trim(hash), HTTP)
    ensures CleanHash(hash) == Trim(hash)
  {
    StripGatewayOfPlainText(Trim(hash));
  }

  /** A gateway URL, surrounded by white space or not, is cleaned to its
      content identifier. */
  lemma {:induction false} CleanHashOfGatewayUrl(secure: bool, host: JsString, cid: JsString)
    requires |host| > 0 && SLASH !in host
    requires |cid| > 0 ==> !IsWhiteSpace(cid[|cid| - 1])
    ensures CleanHash(Scheme(secure) + host + IPFS_PATH + cid) == cid
  {
    var url := Scheme(secure) + host + IPFS_PATH + cid;
    assert url[0] == LOWER_H;
    assert url[|url| - 1] == (if |cid| > 0 then cid[|cid| - 1] else SLASH);
    TrimUnchanged(url);
    StripGatewayOfUrl(secure, host, cid);
  }

  /** The host of a text is its part before the first `/`. */
  lemma {:induction false} HostOfPrefix(host: JsString, tail: JsString)
    requires SLASH !in host
    requires |tail| > 0 && tail[0] == SLASH
    ensures Host(host + tail) == host
    decreases |host|
  {
    if |host| > 0 {
      assert host[0] in host;
      assert (host + tail)[1..] == host[1..] + tail;
      assert forall c :: c in host[1..] ==> c in host;
      HostOfPrefix(host[1..], tail);
      assert [host[0]] + host[1..] == host;
    } else {
      assert host + tail == tail;
    }
  }

  /** Why the page shows an error. */
  datatype PageError =
    | MissingHash              // "Please enter an IPFS hash"
    | RetrieveFailed(cause: JsString) // the message of the fetch error
    | MissingPassword          // "Please enter the decryption password"
    | DecryptionFailed         // "Failed to decrypt data - incorrect password or corrupted data"
    | NullBackup               // the backup parsed as `null`: reading `.shares` throws a TypeError

  /** The page's state. `decrypted` is `JsonNull` until a backup is
      decrypted, as the page's `null`; `error` `None` is the empty message. */
  datatype State = State(
    step: int,
    ipfsHash: JsString,
    password: JsString,
    encrypted: JsString,
    decrypted: JsonValue,
    error: Option<PageError>,
    showShares: seq<bool>)

  function Initial(): (st: State)
    ensures st.step == 1 && st.error.None? && st.decrypted.JsonNull? && st.showShares == []
  {
    State(1, [], [], [], JsonNull, None, [])
  }

  /** `handleRetrieveFromIPFS` with `fetch` standing for
      `retrieveFromPinata`: `Success` with the stored text, or `Failure`
      with the message of the error it throws. */
  function Retrieve(st: State, fetch: JsString -> Result<JsString, JsString>): (r: State)
    ensures IsBlank(st.ipfsHash) ==> r == st.(error := Some(MissingHash))
    ensures !IsBlank(st.ipfsHash) && fetch(CleanHash(st.ipfsHash)).Success? ==>
              r == st.(error := None, encrypted := fetch(CleanHash(st.ipfsHash)).value, step := 2)
    ensures !IsBlank(st.ipfsHash) && fetch(CleanHash(st.ipfsHash)).Failure? ==>
              r == st.(error := Some(RetrieveFailed(fetch(CleanHash(st.ipfsHash)).error)))
  {
    if IsBlank(st.ipfsHash) then st.(error := Some(MissingHash))
    else
      match fetch(CleanHash(st.ipfsHash))
      case Success(data) => st.(error := None, encrypted := data, step := 2)
      case Failure(message) => st.(error := Some(RetrieveFailed(message)))
  }

  /** `decrypted.shares?.length || 0`: the number of shares of a parsed
      document, 0 when it has none; `None` when reading `.shares` throws. */
  function ShareCount(v: JsonValue): (n: Option<nat>)
    ensures n.None? <==> v.JsonNull?
    ensures v.JsonObject? && v.document.shares.Some? ==> n == Some(|v.document.shares.value|)
    ensures v.JsonOther? || (v.JsonObject? && v.document.shares.None?) ==> n == Some(0)
  {
    match v
    case JsonNull => None
    case JsonOther => Some(0)
    case JsonObject(d) => Some(if d.shares.Some? then |d.shares.value| else 0)
  }

  /** `handleDecryptData`: a blank password is refused; otherwise the
      password, untrimmed, decrypts the retrieved text. A parsed `null` is
      stored before reading `.shares` throws. */
  function DecryptStep(json: Json, st: State): (r: State)
    ensures IsBlank(st.password) ==> r == st.(error := Some(MissingPassword))
    ensures !IsBlank(st.password) && Decrypt(json, st.encrypted, st.password).Failure? ==>
              r == st.(error := Some(DecryptionFailed))
    ensures !IsBlank(st.password) && Decrypt(json, st.encrypted, st.password) == Success(JsonNull) ==>
              r == st.(error := Some(NullBackup), decrypted := JsonNull)
    ensures !IsBlank(st.password) && Decrypt(json, st.encrypted, st.password).Success?
            && !Decrypt(json, st.encrypted, st.password).value.JsonNull? ==>
              var v := Decrypt(json, st.encrypted, st.password).value;
              r == st.(error := None, decrypted := v, showShares := Hidden(ShareCount(v).value), step := 3)
  {
    if IsBlank(st.password) then st.(error := Some(MissingPassword))
    else
      match Decrypt(json, st.encrypted, st.password)
      case Failure(_) => st.(error := Some(DecryptionFailed))
      case Success(v) =>
        match ShareCount(v)
        case None => st.(error := Some(NullBackup), decrypted := v)
        case Some(n) => st.(error := None, decrypted := v, showShares := Hidden(n), step := 3)
  }

  /** `toggleShareVisibility(index)` on the page's flags. */
  function ToggleShare(st: State, index: int): (r: State)
    ensures r.showShares == Toggle(st.showShares, index)
    ensures r.(showShares := st.showShares) == st
  {
    st.(showShares := Toggle(st.showShares, index))
  }

  /** Retrieval moves the page to step 2 exactly when it clears the error;
      every refusal or failure sets an error and keeps the step. */
  lemma {:induction false} RetrieveAdvancesOnlyOnSuccess(st: State, fetch: JsString -> Result<JsString, JsString>)
    ensures Retrieve(st, fetch).error.None? ==> Retrieve(st, fetch).step == 2
    ensures Retrieve(st, fetch).error.Some? ==> Retrieve(st, fetch).step == st.step
  {
  }

  /** Decryption moves the page to step 3 exactly when it clears the error,
      and then shows what the password decrypted; every refusal or failure
      sets an error and keeps the step. */
  lemma {:induction false} DecryptAdvancesOnlyOnSuccess(json: Json, st: State)
    ensures DecryptStep(json, st).error.None? ==>
              && DecryptStep(json, st).step == 3
              && Decrypt(json, st.encrypted, st.password).Success?
              && DecryptStep(json, st).decrypted == Decrypt(json, st.encrypted, st.password).value
    ensures DecryptStep(json, st).error.Some? ==> DecryptStep(json, st).step == st.step
  {
  }

  /** A backup the create page stored is read back by this page with the
      same password: step 3, the stored document, and one hidden flag per
      share. */
  lemma {:induction false} DecryptsStoredBackup(json: Json, w: WalletData, password: JsString, timestamp: int, st: State)
    requires ParseReadsStringify(json)
    requires st.password == password && !IsBlank(password)
    ensures Encrypt(json, w, password, timestamp).Success? && st.encrypted == Encrypt(json, w, password, timestamp).value ==>
              && DecryptStep(json, st).step == 3 && DecryptStep(json, st).error.None?
              && DecryptStep(json, st).decrypted == JsonObject(DocumentOf(w, timestamp))
              && |DecryptStep(json, st).showShares| == |w.shares|
              && forall k :: 0 <= k < |w.shares| ==> !DecryptStep(json, st).showShares[k]
  {
    DecryptEncrypt(json, w, password, timestamp);
  }

  /** The create page stores a backup under a password of one space, which
      the decrypt page then refuses as missing: that backup cannot be opened
      from the page. */
  lemma {:induction false} SpacePasswordLocksBackup(json: Json, create: CreatePage.State, st: State, timestamp: int)
    requires create.password == [SPACE] && create.wallet.Some?
    requires IsLatin1(json.stringify(DocumentOf(create.wallet.value, timestamp)))
    requires st.password == [SPACE]
    ensures CreatePage.HandleStore(json, create, timestamp).Some?
    ensures CreatePage.HandleStore(json, create, timestamp).value.backup.Some?
    ensures DecryptStep(json, st) == st.(error := Some(MissingPassword))
  {
    assert IsLatin1(create.password);
    EncryptAcceptsLatin1(json, create.wallet.value, create.password, timestamp);
    assert IsBlank(st.password) by {
      BlankIffAllWhiteSpace(st.password);
    }
  }

  /** With the guarded store, every backup the create page produces is
      opened by this page with the same password: step 3, the stored
      document, one hidden flag per share. */
  lemma {:induction false} DecryptsGuardedBackup(json: Json, create: CreatePage.State, st: State, timestamp: int)
    requires ParseReadsStringify(json)
    requires st.password == create.password
    ensures var stored := CreatePage.HandleStoreGuarded(json, create, timestamp);
            stored.Some? && stored.value.storageError.None? && stored.value.backup.Some?
            && st.encrypted == stored.value.backup.value ==>
              && create.wallet.Some?
              && DecryptStep(json, st).step == 3 && DecryptStep(json, st).error.None?
              && DecryptStep(json, st).decrypted == JsonObject(DocumentOf(create.wallet.value, timestamp))
              && |DecryptStep(json, st).showShares| == |create.wallet.value.shares|
  {
    var stored := CreatePage.HandleStoreGuarded(json, create, timestamp);
    if stored.Some? && stored.value.storageError.None? && stored.value.backup.Some? && st.encrypted == stored.value.backup.value {
      CreatePage.StoredBackupDecrypts(json, create, timestamp);
      DecryptsStoredBackup(json, create.wallet.value, create.password, timestamp, st);
    }
  }
}
