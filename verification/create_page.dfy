/** The wallet creation page (app/create/page.tsx): pick a share
    configuration, generate a keypair and split its private key, show or
    hide each share, and encrypt the public part for storage. The keypair
    generator is a parameter; so is the time of the backup. */
module CreatePage {
  import opened JsText
  import opened Outcomes
  import opened ShareText
  import opened ShareConfig
  import opened Visibility
  import opened BackupCipher

  /** Why storing did not produce a backup. */
  datatype StoreError =
    | NoWallet                      // `walletData` is null: reading `.config` throws a TypeError
    | EncryptRejected(EncryptError) // `btoa` threw inside `encryptWalletData`

  /** The page's state. `backup` is the encrypted text last handed to
      `storeToPinata`; the upload itself is not modelled. */
  datatype State = State(
    step: int,
    wallet: Option<WalletData>,
    showShares: seq<bool>,
    config: Config,
    password: JsString,
    storageError: Option<StoreError>,
    backup: Option<JsString>)

  /** Step 1, ten hidden flags, 5 of 7, nothing generated or stored. */
  function Initial(): (st: State)
    ensures st.step == 1 && st.wallet.None? && st.backup.None? && st.storageError.None?
    ensures Valid(st.config) && st.config == CreateDefault()
    ensures |st.showShares| == 10 && forall k :: 0 <= k < 10 ==> !st.showShares[k]
  {
    State(1, None, Hidden(10), CreateDefault(), [], None, None)
  }

  /** `handleGenerateWallet` with the keypair `generated` that
      `generateSolanaWallet()` returned: the private key is split with the
      current configuration, the wallet is kept with its shares and that
      configuration, the page moves to step 2 and every share is hidden. A
      throw from `splitSecret` leaves the handler before any state is set.
      A negative total would make `Array(n)` throw after the wallet and the
      step are set, leaving the flags as they were. */
  function GenerateWallet(libs: Libraries, st: State, generated: Wallet): (r: State)
    ensures SplitSecret(libs, generated.privateKey, st.config.totalShares, st.config.threshold).Failure?
            ==> r == st
    ensures SplitSecret(libs, generated.privateKey, st.config.totalShares, st.config.threshold).Success? ==>
              && r.step == 2
              && r.wallet == Some(WalletData(generated.privateKey, generated.publicKey, generated.address,
                   SplitSecret(libs, generated.privateKey, st.config.totalShares, st.config.threshold).value,
                   st.config))
              && r.config == st.config && r.password == st.password
              && r.backup == st.backup && r.storageError == st.storageError
    ensures SplitSecret(libs, generated.privateKey, st.config.totalShares, st.config.threshold).Success?
            && st.config.totalShares >= 0 ==>
              |r.showShares| == st.config.totalShares && forall k :: 0 <= k < |r.showShares| ==> !r.showShares[k]
  {
    match SplitSecret(libs, generated.privateKey, st.config.totalShares, st.config.threshold)
    case Failure(_) => st
    case Success(shares) =>
      var w := WalletData(generated.privateKey, generated.publicKey, generated.address, shares, st.config);
      var moved := st.(wallet := Some(w), step := 2);
      if st.config.totalShares < 0 then moved
      else moved.(showShares := Hidden(st.config.totalShares))
  }

  /** `toggleShareVisibility(index)` on the page's flags. */
  function ToggleShare(st: State, index: int): (r: State)
    ensures r.showShares == Toggle(st.showShares, index)
    ensures r.(showShares := st.showShares) == st
  {
    st.(showShares := Toggle(st.showShares, index))
  }

  /** `handleStoreToPinata` up to the upload, at time `timestamp`. An empty
      password is refused with an alert: `None`, nothing changes and nothing
      is encrypted. Otherwise the previous storage error is cleared and the
      backup text is produced, or the error of `encryptWalletData` is
      recorded. */
  function HandleStore(json: Json, st: State, timestamp: int): (r: Option<State>)
    ensures r.None? <==> st.password == []
    ensures r.Some? && st.wallet.None? ==> r.value == st.(storageError := Some(NoWallet))
    ensures r.Some? && st.wallet.Some? ==>
              match Encrypt(json, st.wallet.value, st.password, timestamp)
              case Success(c) => r.value == st.(storageError := None, backup := Some(c))
              case Failure(e) => r.value == st.(storageError := Some(EncryptRejected(e)))
  {
    if st.password == [] then None
    else
      var cleared := st.(storageError := None);
      match cleared.wallet
      case None => Some(cleared.(storageError := Some(NoWallet)))
      case Some(w) =>
        match Encrypt(json, w, st.password, timestamp)
        case Failure(e) => Some(cleared.(storageError := Some(EncryptRejected(e))))
        case Success(c) => Some(cleared.(backup := Some(c)))
  }

  /** `HandleStore` with the guard the decrypt page applies to the same
      password, `!password.trim()`: a password of white space only is
      refused as well as the empty one. */
  function HandleStoreGuarded(json: Json, st: State, timestamp: int): (r: Option<State>)
    ensures r.None? <==> IsBlank(st.password)
    ensures r.Some? ==> r == HandleStore(json, st, timestamp)
  {
    if IsBlank(st.password) then None
    else
      assert st.password != [] by {
        BlankIffAllWhiteSpace(st.password);
      }
      HandleStore(json, st, timestamp)
  }

  /** A stored backup decrypts, with the same password, to the wallet's
      public data: its address, public key, shares and configuration, and
      never its private key. */
  lemma {:induction false} StoredBackupDecrypts(json: Json, st: State, timestamp: int)
    requires ParseReadsStringify(json)
    ensures HandleStore(json, st, timestamp).Some? && HandleStore(json, st, timestamp).value.storageError.None? ==>
              && st.wallet.Some?
              && HandleStore(json, st, timestamp).value.backup.Some?
              && Decrypt(json, HandleStore(json, st, timestamp).value.backup.value, st.password)
                 == Success(JsonObject(DocumentOf(st.wallet.value, timestamp)))
  {
    if st.wallet.Some? {
      DecryptEncrypt(json, st.wallet.value, st.password, timestamp);
    }
  }
}
