# Threshold Solana wallet: a Dafny model of its share, backup and key logic

The wallet app creates a Solana keypair and splits its Base58 private key
into Shamir shares. Each share is written as a text label
`<index>-<base58 payload>`. The recover page validates such labels and
rebuilds the key from them. The create page can also store an encrypted
backup of the public part of the wallet. That backup is JSON, XOR-ed with
the password cycled over its length, then Base64. The decrypt page fetches
the backup by its IPFS hash and decrypts it. The import form reads a pasted
private key as Base58 or, failing that, as hexadecimal.

The model covers the logic around the libraries, as pure functions:

- the share labelling and parsing of `lib/crypto.ts`;
- the pre-flight checks, configuration guess and input-list edits of the
  recover page;
- the XOR-cycle cipher with `btoa`/`atob` of `lib/storage.ts`;
- the key normalisation of the import form;
- the state changes of the create and decrypt pages.

Modelling choices:

- JavaScript strings are sequences of UTF-16 code units. `trim`, `split`,
  `Number.parseInt`, the regular expressions used and `btoa`/`atob` are
  written out as the language defines them.
- The libraries the app calls are parameters, each a datatype of functions:
  the Base58 codec, `shamirs-secret-sharing`, the Ed25519 `Keypair`
  constructors, `JSON.stringify`/`JSON.parse` and the IPFS fetch. What the
  code relies on about them appears only as lemma hypotheses: the codec
  reads back what it writes, its output stays in the Base58 alphabet, and
  `JSON.parse` reads back `JSON.stringify`.
- A call that throws is a `Failure` carrying an error constructor. A
  library call that throws is `None`.

Files, one module each:

| file | module | models |
|---|---|---|
| `outcomes.dfy` | `Outcomes` | `Option`, `Result`, and a `map` that stops at the first throw |
| `js_text.dfy` | `JsText` | code units, white space, `trim`, `split`, `join` |
| `js_number.dfy` | `JsNumber` | Numbers, `Number.parseInt`, `Math.max`, decimal text |
| `bitwise.dfy` | `Bitwise` | the `^` operator |
| `base58.dfy` | `Base58` | the alphabet and the abstract codec |
| `base64.dfy` | `Base64` | `btoa` and `atob` |
| `share_text.dfy` | `ShareText` | `lib/crypto.ts` |
| `recover_page.dfy` | `RecoverPage` | `app/recover/page.tsx` |
| `share_config.dfy` | `ShareConfig` | the two configuration selects |
| `visibility.dfy` | `Visibility` | the show/hide flags |
| `backup_cipher.dfy` | `BackupCipher` | `lib/storage.ts` encryption |
| `key_import.dfy` | `KeyImport` | `components/wallet-import.tsx` |
| `create_page.dfy` | `CreatePage` | `app/create/page.tsx` |
| `decrypt_page.dfy` | `DecryptPage` | `app/decrypt/page.tsx` |

## Model

| member | source | states |
|---|---|---|
| `Outcomes.MapInOrder` | lib/crypto.ts:51-58 | the entry-by-entry `map` that throws: success exactly when every entry passes, with each result in place; on failure, the error is that of the first failing entry |
| `Outcomes.MapInOrderPointwise` | lib/crypto.ts:51-58 | two lists whose entries the step treats alike give the same outcome |
| `JsText.TrimStart` | app/recover/page.tsx:84 | `String.prototype.trimStart` of ECMA-262: drops a leading run of white space and line terminators, and what remains is the rest of the input and does not start with white space |
| `JsText.TrimStartAfterWhiteSpace` | app/recover/page.tsx:84 | white space in front of a text makes no difference to `trimStart` |
| `JsText.Trim` | app/recover/page.tsx:84 | `String.prototype.trim` of ECMA-262: the result neither starts nor ends with white space |
| `JsText.TrimCutsOnlyWhiteSpace` | app/recover/page.tsx:84 | what `trim` cuts off on either side is white space, and the result is a contiguous part of the input |
| `JsText.Split` | app/recover/page.tsx:84 | `String.prototype.split` of ECMA-262 with a one-unit separator: at least one field, none containing the separator |
| `JsText.SplitCount` | app/recover/page.tsx:85 | there is one more field than separators, so two fields means exactly one dash |
| `JsText.JoinSplit` | app/recover/page.tsx:84 | joining the fields with the separator gives back the input |
| `JsText.SplitJoin` | lib/crypto.ts:45 | splitting the join of separator-free fields gives back those fields |
| `JsNumber.ParseInt` | app/recover/page.tsx:88 | `parseInt` of ECMA-262: an invalid radix or text of only white space is NaN; a finite result is non-negative unless the text starts with a minus sign after white space, and then non-positive; the infinities follow the sign the same way |
| `JsNumber.ParseIntSkipsWhiteSpace` | app/recover/page.tsx:88 | white space in front of the text changes nothing `parseInt` reads |
| `JsNumber.ParseIntOfDigits` | app/recover/page.tsx:88 | a run of decimal digits read with radix 10 or with no radix is its decimal value |
| `JsNumber.ParseIntOfDigitPrefix` | app/recover/page.tsx:88 | with radix 10, an optional sign, a run of decimal digits and anything not starting with a digit read as the run's value, negated after a minus; what follows the run is ignored |
| `JsNumber.ParseIntWithoutDigit` | app/recover/page.tsx:46 | when, after white space and an optional sign, the text does not start with a digit of the radix (10 when it is absent), `parseInt` gives NaN |
| `JsNumber.ParseIntDecimalText` | lib/crypto.ts:45 | the decimal index a label is written with reads back as that index with `parseInt(_, 10)` and with no radix |
| `JsNumber.HexPrefixWithoutRadix` | app/recover/page.tsx:46 | `parseInt` without a radix reads a `0x`-prefixed field as hexadecimal |
| `JsNumber.HexPrefixWithRadixTen` | app/recover/page.tsx:89 | with radix 10 the same field reads as 0, so the validator rejects it |
| `JsNumber.Max` | app/recover/page.tsx:54 | `Math.max` over non-NaN numbers: a member of the list that no member exceeds |
| `ShareText.SplitSecret` | lib/crypto.ts:41-46 | one label per library share, in library order, label i being `i+1`, a dash and the Base58 of share i; a secret that is not Base58 or a rejected split is an error |
| `ShareText.ShareLabel` | lib/crypto.ts:45 | a label starts with a decimal digit and is longer than its payload |
| `ShareText.ShareLabelDashes` | lib/crypto.ts:45 | a label holds exactly one dash more than its payload, the one between index and payload |
| `ShareText.DecodeEntry` | lib/crypto.ts:51-58 | an entry without exactly two dash fields after trimming is a format error naming its position; otherwise only the payload field is decoded |
| `ShareText.DecodePayloads` | lib/crypto.ts:51-58 | decoding succeeds exactly when every entry decodes at its 1-based position, giving one buffer per entry in order; otherwise the error is that of the first entry that fails |
| `ShareText.ReconstructSecret` | lib/crypto.ts:48-62 | fewer than two entries are refused before any parsing; on success the result is the Base58 of what `combine` returns for the decoded payloads |
| `ShareText.FormatErrorNamesFirstBadEntry` | lib/crypto.ts:51-56 | a format error names the 1-based position of the first malformed entry, and every earlier entry is well formed |
| `ShareText.DecodeIgnoresIndexField` | lib/crypto.ts:52-57 | the buffers handed to `combine` depend only on the shapes and payloads, never on the index fields |
| `ShareText.ReconstructIgnoresIndexField` | lib/crypto.ts:48-62 | hence reconstruction ignores the index fields |
| `ShareText.EncodingIsDashFree` | lib/crypto.ts:45 | a Base58 payload holds no dash and no white space to trim |
| `ShareText.ShareLabelFields` | lib/crypto.ts:45 | a label is already trimmed and splits into exactly its decimal index and its payload |
| `ShareText.ShareLabelPayload` | lib/crypto.ts:52-57 | every label passes the two-field check and its payload field is the Base58 of its share |
| `ShareText.ShareLabelIndex` | lib/crypto.ts:45 | the index field of label i reads back as i+1 |
| `ShareText.SplitThenReconstruct` | lib/crypto.ts:41-62 | reconstructing from the full output of `splitSecret` hands `combine` exactly the shares `split` produced, in order |
| `ShareText.DeriveWallet` | lib/crypto.ts:19-39 | succeeds exactly for a Base58 key of 64 bytes that the keypair constructor accepts; the address is the public key; every failure is wrapped as an invalid-format error with its cause |
| `RecoverPage.NonBlank` | app/recover/page.tsx:76 | the kept entries are exactly the non-blank ones |
| `RecoverPage.NonBlankAppend` | app/recover/page.tsx:76 | filtering distributes over concatenation, so order is kept |
| `RecoverPage.ValidateEntry` | app/recover/page.tsx:83-105 | the entry passes exactly when its trimmed text splits at dashes into two fields, the first read with `parseInt(_, 10)` is a finite number of at least 1, and the trimmed second is non-empty Base58 of at least 64 characters; it then yields that number and that trimmed payload. Otherwise the error names the entry's position and the first failing check in source order: format, index (quoting the index field), Base58 characters, length |
| `RecoverPage.ValidateFields` | app/recover/page.tsx:85-104 | the same checks over the split fields: success exactly when there are two fields, a positive finite index and a long enough Base58 payload, yielding that index and payload; each error kind is reported exactly when its check is the first to fail |
| `RecoverPage.Indices` | app/recover/page.tsx:108 | one index per parsed entry, in order |
| `RecoverPage.DuplicateIffNotDistinct` | app/recover/page.tsx:108-112 | the Set-size test finds a duplicate exactly when two entries have the same index |
| `RecoverPage.Preflight` | app/recover/page.tsx:76-112 | succeeds exactly when there are enough non-blank entries, every one validates and their indices are distinct, and then passes on the non-blank entries themselves; too few entries is the count error; otherwise the first entry that fails validation decides the error, by its position among the non-blank entries; the duplicate error is reported exactly when all entries validate and two share an index |
| `RecoverPage.Recover` | app/recover/page.tsx:74-123 | a pre-flight failure is the result; after a passing pre-flight, a throwing reconstruction is the reconstruction error, a throwing derivation is the derivation error, and otherwise the derived wallet is the result; reconstruction receives the non-blank entries |
| `RecoverPage.EnabledIffCountPasses` | app/recover/page.tsx:244 | the recover button is enabled exactly when no recovery is running and the count check would pass |
| `RecoverPage.ValidateEntryAccepts` | app/recover/page.tsx:83-105 | an entry whose trimmed text splits into an index field read as a positive finite number and a payload that is Base58 of at least 64 characters once trimmed is accepted with that number and the trimmed payload |
| `RecoverPage.LabelPassesValidation` | app/recover/page.tsx:83-105 | an index field, a dash and a long enough Base58 payload pass the check and parse back to the field's number and the payload |
| `RecoverPage.ShareLabelPassesValidation` | app/recover/page.tsx:83-105 | every label `splitSecret` writes with a long enough payload passes the check and parses back to its own index and payload |
| `RecoverPage.NonBlankKeepsAll` | app/recover/page.tsx:76 | a list with no blank entry passes the filter unchanged |
| `RecoverPage.SplitLabelsValidate` | app/recover/page.tsx:76-105 | every label of `splitSecret` with long enough payloads is non-blank, and label k validates as index k+1 with the Base58 of share k |
| `RecoverPage.NumberedEntriesPassPreflight` | app/recover/page.tsx:76-112 | non-blank entries that validate as indices 1, 2, ... in order pass the pre-flight exactly when there are enough of them, and are then passed on unchanged |
| `RecoverPage.SplitLabelsPassPreflight` | app/recover/page.tsx:76-112 | the labels of `splitSecret` fail the pre-flight only by being fewer than the required count |
| `RecoverPage.SplitThenRecover` | app/recover/page.tsx:74-123 | recovering from all labels `splitSecret` wrote, when at least the required number, gives the wallet derived from the Base58 of what `combine` returns for exactly the split shares, or the matching reconstruction or derivation error |
| `RecoverPage.IndexGuess` | app/recover/page.tsx:43-50 | an entry yields no guess exactly when its untrimmed text does not split into two dash fields or its first field reads as NaN with `parseInt` and no radix; otherwise the guess is that number |
| `RecoverPage.IndexGuesses` | app/recover/page.tsx:42-51 | one guess at most per entry, none of them NaN |
| `RecoverPage.IndexGuessesMembers` | app/recover/page.tsx:42-51 | the guesses are exactly the numbers some entry yields |
| `RecoverPage.IndexGuessOfLabel` | app/recover/page.tsx:43-50 | a label `splitSecret` writes is non-blank and yields its own 1-based index as the guess |
| `RecoverPage.IndexGuessesOfAll` | app/recover/page.tsx:42-51 | when every entry yields a guess, the guesses are exactly those, one per entry, in order |
| `RecoverPage.NumberedGuesses` | app/recover/page.tsx:42-51 | entries yielding 1, 2, ... in order give exactly those guesses |
| `RecoverPage.MaxOfCount` | app/recover/page.tsx:54 | `Math.max` of 1, 2, ..., n is n |
| `RecoverPage.DetectNumbered` | app/recover/page.tsx:38-68 | non-blank entries yielding 1, 2, ... in order are detected as a configuration whose total is their number and whose threshold is the selected one |
| `RecoverPage.DetectSplitLabels` | app/recover/page.tsx:38-68 | pasting every label `splitSecret` wrote is detected as a total of that many shares with the selected threshold; no label means nothing is detected |
| `RecoverPage.DetectConfig` | app/recover/page.tsx:38-68 | nothing is set when no entry yields a number; otherwise the total is the largest guess and the threshold is the selected one |
| `RecoverPage.Initial` | app/recover/page.tsx:16-24 | two blank inputs, threshold 3, nothing detected or recovered |
| `RecoverPage.ShareChange` | app/recover/page.tsx:28-36 | the trimmed value replaces entry i and no other, the error is cleared, and detection runs on the new list |
| `RecoverPage.AddShareInput` | app/recover/page.tsx:136-140 | one empty input is appended below ten inputs, otherwise nothing changes |
| `RecoverPage.RemoveShareInput` | app/recover/page.tsx:142-146 | input i is removed while more than two remain, otherwise nothing changes |
| `RecoverPage.Without` | app/recover/page.tsx:144 | removing position i keeps every entry before i in place and shifts every entry after it down by one, so the list is one shorter; a position past the end changes nothing |
| `RecoverPage.InputCountStaysInRange` | app/recover/page.tsx:136-146 | the input count stays between two and ten |
| `RecoverPage.HandleRecover` | app/recover/page.tsx:70-130 | the error clears exactly when recovery succeeds, and then the wallet is shown; the inputs are untouched |
| `ShareConfig.CreateDefault` | app/create/page.tsx:20-23 | the initial 5-of-7 is a valid configuration |
| `ShareConfig.ImportDefault` | components/wallet-import.tsx:23-26 | the import form's initial 3-of-5 is a valid configuration |
| `ShareConfig.SelectTotal` | app/create/page.tsx:124-131 | the new total is set and the threshold becomes the smaller of the old threshold and the new total, so a valid configuration stays valid (the import form's select, components/wallet-import.tsx:152-157, runs the same rule) |
| `ShareConfig.SelectThreshold` | app/create/page.tsx:147-155 | only the threshold changes, and validity is kept |
| `ShareConfig.LossTolerance` | app/create/page.tsx:170 | losing the stated number of shares leaves exactly the threshold |
| `ShareConfig.FatalLoss` | app/create/page.tsx:209-210 | losing the stated number leaves one share short of the threshold, one more than the tolerated loss |
| `Visibility.Hidden` | app/create/page.tsx:39 | n flags, all false |
| `Visibility.Toggle` | app/create/page.tsx:58-60 | only flag i flips and the length is kept |
| `Visibility.ToggleTwice` | app/create/page.tsx:58-60 | toggling the same share twice restores the flags |
| `Visibility.TogglesCommute` | app/decrypt/page.tsx:105-107 | toggles of two shares commute |
| `Bitwise.Xor` | lib/storage.ts:19 | the lowest bit of the result is set exactly when the operands' lowest bits differ; a value XOR itself is 0; the result is at most the sum of the operands |
| `Bitwise.XorSelfInverse` | lib/storage.ts:19 | XOR with the same mask twice gives the value back |
| `Bitwise.XorZero` | lib/storage.ts:33 | XOR with 0 changes nothing |
| `Bitwise.XorBelow` | lib/storage.ts:19 | XOR of two bytes is a byte |
| `Base64.Btoa` | lib/storage.ts:23 | fails exactly on text with a code unit above 0xFF; otherwise the output has length 4 times the number of 3-unit groups, rounded up, and is Base64 alphabet characters followed by at most two `=` |
| `Base64.Atob` | lib/storage.ts:28 | with white space removed and, on a length divisible by four, up to two final `=` dropped: fails exactly when the rest has length 1 modulo 4 or a character outside the alphabet; otherwise the output is byte text of three units per four characters, less one per missing character of the last group |
| `Base64.AtobBtoa` | lib/storage.ts:23-28 | decoding the encoding of a byte text gives the text back |
| `BackupCipher.DocumentOf` | lib/storage.ts:5-12 | the document carries the configuration, address, public key, shares and time, and nothing else |
| `BackupCipher.KeyUnit` | lib/storage.ts:19 | unit `i mod length` of the password, and 0 for an empty password |
| `BackupCipher.XorCycle` | lib/storage.ts:17-21 | the output has the input's length and unit k is `s[k]` XOR the password unit k |
| `BackupCipher.XorCycleInvolution` | lib/storage.ts:17-37 | applying the cipher twice with the same password, empty or not, gives the text back |
| `BackupCipher.EmptyPasswordIsIdentity` | lib/storage.ts:19 | with an empty password the cipher changes nothing |
| `BackupCipher.XorCycleKeepsLatin1` | lib/storage.ts:19-23 | byte text and byte password give byte text |
| `BackupCipher.Encrypt` | lib/storage.ts:3-24 | fails exactly when the XOR-ed text has a unit above 0xFF; on success `atob` of the result is the XOR-ed text |
| `BackupCipher.Decrypt` | lib/storage.ts:26-41 | succeeds exactly when `atob` and `JSON.parse` both succeed; every failure is the one decryption error |
| `BackupCipher.EncryptAcceptsLatin1` | lib/storage.ts:19-23 | encryption cannot fail for a byte document and a byte password |
| `BackupCipher.DecryptEncrypt` | lib/storage.ts:3-41 | decrypting a backup with its password gives back the document written |
| `BackupCipher.EncryptIgnoresPrivateKey` | lib/storage.ts:5-12 | the private key never affects the backup |
| `KeyImport.CheckLength` | components/wallet-import.tsx:75-77 | only 32 or 64 bytes pass, unchanged; anything else is the length error |
| `KeyImport.StripHexPrefix` | components/wallet-import.tsx:68 | one leading lower-case `0x` is removed, nothing else |
| `KeyImport.MatchPairs` | components/wallet-import.tsx:70 | every match is two units long, and there are at most half as many as units |
| `KeyImport.ToUint8` | components/wallet-import.tsx:70 | the stored byte is the number modulo 256, so it differs from the number by a multiple of 256, and NaN or an infinity is stored as 0 |
| `KeyImport.HexBytes` | components/wallet-import.tsx:70 | byte k is chunk k read with radix 16 and stored as a byte |
| `KeyImport.HexFallback` | components/wallet-import.tsx:66-77 | an odd length after the prefix is the length error; an even length with no two-unit chunk to match is the match error; otherwise the bytes of the chunks are checked for 32 or 64 bytes, and a key produced has byte k equal to chunk k read with radix 16 and stored as a byte |
| `KeyImport.NormalizeKey` | components/wallet-import.tsx:49-77 | blank text is refused first; when Base58 decoding succeeds it alone decides; hex is tried only when it throws; any key produced has 32 or 64 bytes |
| `KeyImport.HexDigit` | components/wallet-import.tsx:70 | the digit reads back as its value |
| `KeyImport.HexText` | components/wallet-import.tsx:70 | two hexadecimal digits per byte |
| `KeyImport.MatchPairsOfPlainText` | components/wallet-import.tsx:70 | text without line terminators gives one chunk per two units, in order |
| `KeyImport.HexFallbackLength` | components/wallet-import.tsx:68-77 | hex text without line terminators is accepted exactly at 64 or 128 digits |
| `KeyImport.ParseHexDigits` | components/wallet-import.tsx:70 | two hexadecimal digits read with radix 16 give their value |
| `KeyImport.ParseHexPair` | components/wallet-import.tsx:70 | the two digits written for a byte read back as that byte |
| `KeyImport.HexTextPairs` | components/wallet-import.tsx:70 | the hex text of a key is matched as one chunk per byte |
| `KeyImport.PlainTextPair` | components/wallet-import.tsx:70 | chunk k of text without line terminators is units 2k and 2k+1 |
| `KeyImport.HexBytesOfHexText` | components/wallet-import.tsx:70 | the chunks of the hex text of a key read back as the key |
| `KeyImport.HexFallbackOfHexText` | components/wallet-import.tsx:66-77 | `0x` and the hex text of a 32- or 64-byte key give back the key |
| `KeyImport.HexKeyRoundTrip` | components/wallet-import.tsx:49-77 | a 32- or 64-byte key pasted as `0x` hex is imported as exactly that key |
| `KeyImport.DecodableKey` | components/wallet-import.tsx:59-77 | a key Base58 decodes to 32 or 64 bytes is imported as those bytes |
| `KeyImport.Base58KeyRoundTrip` | components/wallet-import.tsx:59-77 | a 32- or 64-byte key pasted as its Base58 text is imported as exactly that key |
| `KeyImport.ImportWallet` | components/wallet-import.tsx:79-95 | a key error is passed on; a keypair constructor that throws is the keypair error; a split that throws is the split error and otherwise the import succeeds; a 64-byte key is kept as decoded and a 32-byte seed gets the secret key of `Keypair.fromSeed`; the shares are `splitSecret` of that key with the form's configuration; the address is the public key |
| `KeyImport.ImportedKeyDerives` | components/wallet-import.tsx:80-89 | an imported 64-byte key is accepted again by `deriveWalletFromPrivateKey`, with the same public key and address |
| `KeyImport.ImportedSeedDerives` | components/wallet-import.tsx:80-89 | when the keypair library agrees with itself on seeds, an imported 32-byte seed gives a private key that `deriveWalletFromPrivateKey` accepts, with the same public key and address |
| `CreatePage.Initial` | app/create/page.tsx:16-27 | step 1, ten hidden flags, 5 of 7, nothing generated or stored |
| `CreatePage.GenerateWallet` | app/create/page.tsx:29-40 | on a successful split: step 2, the wallet with its shares and the configuration used, and one hidden flag per requested share; a throwing split changes nothing |
| `CreatePage.ToggleShare` | app/create/page.tsx:58-60 | only the flags change |
| `CreatePage.HandleStore` | app/create/page.tsx:62-81 | an empty password is refused with nothing encrypted; otherwise the backup is produced or the error recorded |
| `CreatePage.HandleStoreGuarded` | app/create/page.tsx:63-66 | the store with a blank-password guard: refused exactly for a blank password, else as `HandleStore` |
| `CreatePage.StoredBackupDecrypts` | app/create/page.tsx:62-81 | a stored backup decrypts, with its password, to the wallet's public data |
| `DecryptPage.Host` | app/decrypt/page.tsx:48 | the longest prefix without a slash, followed by a slash or the end |
| `DecryptPage.HostOfPrefix` | app/decrypt/page.tsx:48 | the host of `host/...` is `host` |
| `DecryptPage.AfterScheme` | app/decrypt/page.tsx:48 | the text after `http://` or `https://`, exactly when one of them starts the text |
| `DecryptPage.StripGateway` | app/decrypt/page.tsx:48 | text of the form `http(s)://<host>/ipfs/<cid>`, the host non-empty and without a slash, gives `<cid>`; any other text is kept unchanged |
| `DecryptPage.CleanHash` | app/decrypt/page.tsx:48 | the trimmed input, with a gateway URL `http(s)://<host>/ipfs/<cid>` replaced by its `<cid>` and anything else kept |
| `DecryptPage.StripGatewayOfPlainText` | app/decrypt/page.tsx:48 | text not starting with `http` is kept |
| `DecryptPage.StripGatewayOfUrl` | app/decrypt/page.tsx:48 | `http(s)://<host>/ipfs/<cid>` gives `<cid>` for every non-empty host without a slash and every cid |
| `DecryptPage.CleanHashOfPlainHash` | app/decrypt/page.tsx:48 | input not starting with `http` once trimmed is only trimmed |
| `DecryptPage.CleanHashOfGatewayUrl` | app/decrypt/page.tsx:48 | a gateway URL is cleaned to its content identifier |
| `DecryptPage.StripGatewayChangesOnlyUrls` | app/decrypt/page.tsx:48 | the gateway pattern changes the text exactly when the text is a gateway URL |
| `DecryptPage.Initial` | app/decrypt/page.tsx:28-36 | step 1, no error, nothing decrypted, no flags |
| `DecryptPage.Retrieve` | app/decrypt/page.tsx:38-58 | a blank hash is refused with no fetch; a fetch of the cleaned hash moves to step 2 on success and records its error otherwise |
| `DecryptPage.ShareCount` | app/decrypt/page.tsx:72 | the share count of the parsed value, 0 without shares, and a throw on `null` |
| `DecryptPage.DecryptStep` | app/decrypt/page.tsx:60-79 | a blank password is refused; a non-blank one is used untrimmed; failure keeps the step; success shows step 3 with one hidden flag per share |
| `DecryptPage.ToggleShare` | app/decrypt/page.tsx:105-107 | only the flags change |
| `DecryptPage.RetrieveAdvancesOnlyOnSuccess` | app/decrypt/page.tsx:38-58 | retrieval reaches step 2 exactly when it clears the error, and otherwise keeps the step |
| `DecryptPage.DecryptAdvancesOnlyOnSuccess` | app/decrypt/page.tsx:60-79 | decryption reaches step 3 exactly when it clears the error, showing what the password decrypted, and otherwise keeps the step |
| `DecryptPage.DecryptsStoredBackup` | app/decrypt/page.tsx:60-79 | a backup written by `encryptWalletData` is opened with its password: step 3, the stored document, one hidden flag per share |
| `DecryptPage.SpacePasswordLocksBackup` | app/decrypt/page.tsx:61-64 | a backup stored under a one-space password is refused by this page as having no password |
| `DecryptPage.DecryptsGuardedBackup` | app/decrypt/page.tsx:60-79 | with the guarded store, every stored backup opens on this page with its password |

## Left out

- The internals of `shamirs-secret-sharing`, of the Base58 codec, of `Keypair` and of `JSON` are not modelled. They are unseen libraries and appear only as function parameters. No threshold or secrecy property is claimed.
- `generateSolanaWallet` (lib/crypto.ts:5-17) is random key generation; the create page receives its result as a parameter.
- The Pinata upload and retrieval in lib/storage.ts:43-117 are network I/O. The fetch is a parameter of `DecryptPage.Retrieve`, and the create page stops at the text it would upload.
- `Date.now()` is a parameter.
- `KeyImport.ImportedSeedDerives`: rests on the hypothesis that `Keypair.fromSecretKey` of the secret key `Keypair.fromSeed` returns gives the same keypair; the Ed25519 library is not modelled.
- Numbers are exact integers up to the overflow to Infinity. Rounding of integers above 2^53 to the nearest double is not modelled. It matters only for share indices of more than 15 digits.
- A decrypted `shares` property that is not an array is not modelled. The parsed document has either a list of shares or none.
- Error messages are error constructors carrying the data they interpolate, not the message text.
- The `importing`, `isRecovering`, `isRetrieving`, `isDecrypting` and `isStoring` flags are not modelled. Only the recover button's enable rule is, and it takes the flag as an argument.
- `RecoverPage.ShareChange`: requires an index inside the list, as the page only passes positions of existing inputs; writing past the end of a JavaScript array is not modelled.
- The import form's connected-wallet button (components/wallet-import.tsx:28-47) only shows an alert.
- The `imported: true` marker of the imported wallet object is not kept. `KeyImport.ImportWallet` returns the wallet fields the pages read.
- components/wallet-connection.tsx is not part of this model: it covers wallet-adapter connection, an RPC balance and a floating-point conversion. app/page.tsx, app/layout.tsx and components/imported-wallet-display.tsx are display only and are not part of it either.
- JSX rendering, clipboard, downloads, `setTimeout`, `window.open`, `alert` and console logging are not modelled.

## Findings

| source | as written | input that shows it | evidently intended | confidence | as-written member | corrected member |
|---|---|---|---|---|---|---|
| app/create/page.tsx:63 | `if (!storagePassword)` refuses only the empty password, but the decrypt page (app/decrypt/page.tsx:61) refuses any password that trims to empty | storage password `" "` (one space): the backup is encrypted and stored, and the decrypt page then answers "Please enter the decryption password" for that same password | the create page refuses a blank password, as the decrypt page does, so every stored backup can be opened | medium; not executed | `DecryptPage.SpacePasswordLocksBackup` | `CreatePage.HandleStoreGuarded` |
