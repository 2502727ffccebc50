/** The recovery page (app/recover/page.tsx): the list of share inputs, the
    configuration it guesses from them, and the checks `handleRecover` runs
    before it hands the non-blank entries to `reconstructSecret` and the
    result to `deriveWalletFromPrivateKey`. */
module RecoverPage {
  import opened JsText
  import opened JsNumber
  import opened Base58
  import opened Outcomes
  import opened ShareText

  /** The page starts with two empty inputs and never shows fewer than
      two or more than ten. */
  const MIN_INPUTS: nat := 2
  const MAX_INPUTS: nat := 10

  /** A share payload shorter than this is reported as truncated. */
  const MIN_DATA_LENGTH: nat := 64

  /** The entries that `filter((share) => share.trim() !== "")` keeps, in
      their original order. */
  function NonBlank(shares: seq<JsString>): (r: seq<JsString>)
    ensures |r| <= |shares|
    ensures forall x :: x in r <==> x in shares && !IsBlank(x)
  {
    if shares == [] then []
    else if IsBlank(shares[0]) then NonBlank(shares[1..])
    else [shares[0]] + NonBlank(shares[1..])
  }

  /** Filtering distributes over concatenation, so NonBlank keeps the order
      of the entries it keeps. */
  lemma {:induction false} NonBlankAppend(a: seq<JsString>, b: seq<JsString>)
    ensures NonBlank(a + b) == NonBlank(a) + NonBlank(b)
    decreases |a|
  {
    if a == [] {
      assert a + b == b;
    } else {
      assert (a + b)[0] == a[0];
      assert (a + b)[1..] == a[1..] + b;
      NonBlankAppend(a[1..], b);
    }
  }

  /** What is wrong with one entry, in the order the checks run. */
  datatype EntryFault =
    | BadFormat             // "Share N format is invalid. ..."
    | BadIndex(field: JsString) // "Share N has an invalid numeric index: ..."
    | BadBase58             // "Share N contains invalid Base58 characters."
    | TooShort              // "Share N seems too short. ..."

  /** Everything `handleRecover` can report. */
  datatype RecoverError =
    | NotEnoughShares(required: int)             // "Please provide at least N shares"
    | InvalidShare(position: nat, fault: EntryFault)
    | DuplicateIndices                           // "Duplicate share indices detected. ..."
    | ReconstructFailed(crypto: CryptoError)     // rethrown from reconstructSecret
    | DeriveFailed(derive: DeriveError)          // rethrown from deriveWalletFromPrivateKey

  /** `{ index: shareIndex, data: base58Data }`. */
  datatype ParsedShare = ParsedShare(index: int, data: JsString)

  /** The per-entry check of `handleRecover` for the entry at 1-based
      `position` among the non-blank entries: `share.trim().split("-")`,
      then the checks on the fields. The entry passes exactly when it has
      two fields, its index field reads with radix 10 as a finite number of
      at least 1, and its payload, trimmed, is Base58 text of at least
      MIN_DATA_LENGTH characters; the first check that fails names the
      fault. */
  function ValidateEntry(s: JsString, position: nat): (r: Result<ParsedShare, RecoverError>)
    ensures r.Failure? ==> r.error.InvalidShare? && r.error.position == position
    ensures r.Success? <==>
              && HasShareShape(s)
              && IsPositiveIndex(ParseInt(IndexField(s), 10))
              && IsBase58Text(Trim(Payload(s)))
              && |Trim(Payload(s))| >= MIN_DATA_LENGTH
    ensures r.Success? ==> r.value == ParsedShare(ParseInt(IndexField(s), 10).value, Trim(Payload(s)))
    ensures r == Failure(InvalidShare(position, BadFormat)) <==> !HasShareShape(s)
    ensures HasShareShape(s) ==>
              (r == Failure(InvalidShare(position, BadIndex(IndexField(s))))
               <==> !IsPositiveIndex(ParseInt(IndexField(s), 10)))
    ensures HasShareShape(s) && IsPositiveIndex(ParseInt(IndexField(s), 10)) ==>
              (r == Failure(InvalidShare(position, BadBase58)) <==> !IsBase58Text(Trim(Payload(s))))
    ensures HasShareShape(s) && IsPositiveIndex(ParseInt(IndexField(s), 10)) && IsBase58Text(Trim(Payload(s))) ==>
              (r == Failure(InvalidShare(position, TooShort)) <==> |Trim(Payload(s))| < MIN_DATA_LENGTH)
  {
    ValidateFields(Split(Trim(s), DASH), position)
  }

  /** The checks on the fields of one entry, in source order: exactly two
      fields, a finite index of at least 1 read with radix 10, a Base58
      payload after trimming, and a minimum payload length. */
  function ValidateFields(parts: seq<JsString>, position: nat): (r: Result<ParsedShare, RecoverError>)
    ensures r.Failure? ==> r.error.InvalidShare? && r.error.position == position
    ensures r.Success? <==>
              && |parts| == 2
              && IsPositiveIndex(ParseInt(parts[0], 10))
              && IsBase58Text(Trim(parts[1]))
              && |Trim(parts[1])| >= MIN_DATA_LENGTH
    ensures r.Success? ==> r.value == ParsedShare(ParseInt(parts[0], 10).value, Trim(parts[1]))
    ensures r == Failure(InvalidShare(position, BadFormat)) <==> |parts| != 2
    ensures |parts| == 2 ==>
              (r == Failure(InvalidShare(position, BadIndex(parts[0]))) <==> !IsPositiveIndex(ParseInt(parts[0], 10)))
    ensures |parts| == 2 && IsPositiveIndex(ParseInt(parts[0], 10)) ==>
              (r == Failure(InvalidShare(position, BadBase58)) <==> !IsBase58Text(Trim(parts[1])))
    ensures |parts| == 2 && IsPositiveIndex(ParseInt(parts[0], 10)) && IsBase58Text(Trim(parts[1])) ==>
              (r == Failure(InvalidShare(position, TooShort)) <==> |Trim(parts[1])| < MIN_DATA_LENGTH)
  {
    if |parts| != 2 then Failure(InvalidShare(position, BadFormat))
    else
      var n := ParseInt(parts[0], 10);
      if !IsPositiveIndex(n) then Failure(InvalidShare(position, BadIndex(parts[0])))
      else
        var data := Trim(parts[1]);
        if !IsBase58Text(data) then Failure(InvalidShare(position, BadBase58))
        else if |data| < MIN_DATA_LENGTH then Failure(InvalidShare(position, TooShort))
        else Success(ParsedShare(n.value, data))
  }

  /** ValidateEntry as the function `validShares.map` applies. */
  function EntryCheck(): (JsString, nat) -> Result<ParsedShare, RecoverError> {
    (s: JsString, position: nat) => ValidateEntry(s, position)
  }

  /** The indices of the parsed shares, `shareValidation.map((s) => s.index)`. */
  function Indices(parsed: seq<ParsedShare>): (r: seq<int>)
    ensures |r| == |parsed|
    ensures forall k :: 0 <= k < |r| ==> r[k] == parsed[k].index
  {
    seq(|parsed|, k requires 0 <= k < |parsed| => parsed[k].index)
  }

  /** The test `indices.length !== new Set(indices).size`. */
  predicate HasDuplicate(xs: seq<int>) {
    |set x | x in xs| != |xs|
  }

  /** No two positions hold the same value. */
  predicate Distinct(xs: seq<int>) {
    forall i, j :: 0 <= i < j < |xs| ==> xs[i] != xs[j]
  }

  lemma {:induction false} SetOfSeqBound(xs: seq<int>)
    ensures |set x | x in xs| <= |xs|
    decreases |xs|
  {
    if xs != [] {
      SetOfSeqBound(xs[1..]);
      assert (set x | x in xs) == {xs[0]} + (set x | x in xs[1..]);
    }
  }

  /** A non-empty list is distinct exactly when its head does not recur and
      its tail is distinct. */
  lemma {:induction false} DistinctCons(xs: seq<int>)
    requires xs != []
    ensures Distinct(xs) <==> xs[0] !in xs[1..] && Distinct(xs[1..])
  {
    var tail := xs[1..];
    if xs[0] in tail {
      var j :| 0 <= j < |tail| && tail[j] == xs[0];
      assert xs[j + 1] == xs[0];
    }
    if !Distinct(tail) {
      var i, j :| 0 <= i < j < |tail| && tail[i] == tail[j];
      assert xs[i + 1] == xs[j + 1];
    }
    if xs[0] !in tail && Distinct(tail) {
      forall i, j | 0 <= i < j < |xs| ensures xs[i] != xs[j] {
        assert xs[j] == tail[j - 1];
        if i > 0 {
          assert xs[i] == tail[i - 1];
        }
      }
    }
  }

  /** The Set-size test finds a duplicate exactly when two positions hold
      the same index. */
  lemma {:induction false} DuplicateIffNotDistinct(xs: seq<int>)
    ensures HasDuplicate(xs) <==> !Distinct(xs)
    decreases |xs|
  {
    if xs != [] {
      var tail := xs[1..];
      DuplicateIffNotDistinct(tail);
      DistinctCons(xs);
      SetOfSeqBound(tail);
      assert (set x | x in xs) == {xs[0]} + (set x | x in tail);
    }
  }

  /** `handleRecover` up to the call of `reconstructSecret`: the non-blank
      entries are counted against the threshold, then validated in order
      (the first bad entry is reported by its position among the non-blank
      entries), then checked for duplicate indices. On success the
      non-blank entries themselves, unchanged, are what reconstruction
      receives. */
  function Preflight(shares: seq<JsString>, required: int): (r: Result<seq<JsString>, RecoverError>)
    ensures r == Failure(NotEnoughShares(required)) <==> |NonBlank(shares)| < required
    ensures r.Success? <==>
              && |NonBlank(shares)| >= required
              && MapInOrder(EntryCheck(), NonBlank(shares), 0).Success?
              && Distinct(Indices(MapInOrder(EntryCheck(), NonBlank(shares), 0).value))
    ensures r.Success? ==> r.value == NonBlank(shares)
    ensures |NonBlank(shares)| >= required && MapInOrder(EntryCheck(), NonBlank(shares), 0).Failure? ==>
              r == Failure(MapInOrder(EntryCheck(), NonBlank(shares), 0).error)
    ensures r == Failure(DuplicateIndices) <==>
              && |NonBlank(shares)| >= required
              && MapInOrder(EntryCheck(), NonBlank(shares), 0).Success?
              && !Distinct(Indices(MapInOrder(EntryCheck(), NonBlank(shares), 0).value))
    ensures r.Failure? && r.error.InvalidShare? ==>
              exists k :: FirstFailure(EntryCheck(), NonBlank(shares), 0, k, r.error)
  {
    var valid := NonBlank(shares);
    if |valid| < required then Failure(NotEnoughShares(required))
    else
      match MapInOrder(EntryCheck(), valid, 0)
      case Failure(e) =>
        assert e.InvalidShare? by {
          var k :| FirstFailure(EntryCheck(), valid, 0, k, e);
          assert ValidateEntry(valid[k], k + 1) == Failure(e);
        }
        Failure(e)
      case Success(parsed) =>
        DuplicateIffNotDistinct(Indices(parsed));
        if HasDuplicate(Indices(parsed)) then Failure(DuplicateIndices)
        else Success(valid)
  }

  /** `handleRecover`: the checks, then reconstruction from the original
      non-blank strings, then wallet derivation. A throw from either library
      call is reported as that call's error. */
  function Recover(libs: Libraries, shares: seq<JsString>, required: int): (r: Result<Wallet, RecoverError>)
    ensures Preflight(shares, required).Failure? ==> r == Failure(Preflight(shares, required).error)
    ensures Preflight(shares, required).Success? && ReconstructSecret(libs, NonBlank(shares)).Failure? ==>
              r == Failure(ReconstructFailed(ReconstructSecret(libs, NonBlank(shares)).error))
    ensures Preflight(shares, required).Success? && ReconstructSecret(libs, NonBlank(shares)).Success? ==>
              match DeriveWallet(libs, ReconstructSecret(libs, NonBlank(shares)).value)
              case Failure(e) => r == Failure(DeriveFailed(e))
              case Success(w) => r == Success(w)
    ensures r.Success? ==>
              && Preflight(shares, required).Success?
              && ReconstructSecret(libs, NonBlank(shares)).Success?
              && DeriveWallet(libs, ReconstructSecret(libs, NonBlank(shares)).value) == Success(r.value)
  {
    match Preflight(shares, required)
    case Failure(e) => Failure(e)
    case Success(valid) =>
      match ReconstructSecret(libs, valid)
      case Failure(e) => Failure(ReconstructFailed(e))
      case Success(privateKey) =>
        match DeriveWallet(libs, privateKey)
        case Failure(e) => Failure(DeriveFailed(e))
        case Success(wallet) => Success(wallet)
  }

  /** The recover button's `disabled` test, negated. */
  predicate RecoverEnabled(shares: seq<JsString>, required: int, isRecovering: bool) {
    !isRecovering && |NonBlank(shares)| >= required
  }

  /** The button is enabled exactly when no recovery is running and the
      count check of `handleRecover` would pass. */
  lemma {:induction false} EnabledIffCountPasses(shares: seq<JsString>, required: int, isRecovering: bool)
    ensures RecoverEnabled(shares, required, isRecovering)
            <==> !isRecovering && Preflight(shares, required) != Failure(NotEnoughShares(required))
  {
  }

  /** An entry passes the per-entry check when its trimmed text splits into
      an index field that reads as a positive number and a payload that,
      once trimmed, is Base58 text of at least MIN_DATA_LENGTH characters;
      white space around the payload is dropped. */
  lemma {:induction false} ValidateEntryAccepts(s: JsString, position: nat, field: JsString, data: JsString)
    requires Split(Trim(s), DASH) == [field, data]
    requires IsPositiveIndex(ParseInt(field, 10))
    requires IsBase58Text(Trim(data)) && |Trim(data)| >= MIN_DATA_LENGTH
    ensures ValidateEntry(s, position) == Success(ParsedShare(ParseInt(field, 10).value, Trim(data)))
  {
  }

  /** A label made of an index field, a dash and a long enough Base58
      payload passes the per-entry check and parses back to the index the
      field reads as and to the payload. */
  lemma {:induction false} LabelPassesValidation(field: JsString, data: JsString, position: nat)
    requires |field| > 0 && DASH !in field && !IsWhiteSpace(field[0])
    requires IsPositiveIndex(ParseInt(field, 10))
    requires InAlphabet(data) && |data| >= MIN_DATA_LENGTH
    ensures ValidateEntry(field + [DASH] + data, position)
            == Success(ParsedShare(ParseInt(field, 10).value, data))
  {
    var s := field + [DASH] + data;
    assert data[0] in data && data[|data| - 1] in data;
    AlphabetExcludesSeparators(data[0]);
    AlphabetExcludesSeparators(data[|data| - 1]);
    if DASH in data {
      AlphabetExcludesSeparators(DASH);
    }
    assert s[0] == field[0] && s[|s| - 1] == data[|data| - 1];
    TrimUnchanged(s);
    TrimUnchanged(data);
    SplitTwo(field, data, DASH);
    ValidateEntryAccepts(s, position, field, data);
    assert Trim(data) == data;
  }

  /** Every label `splitSecret` writes passes the per-entry check when its
      payload is long enough, and parses back to its own index and payload. */
  lemma {:induction false} ShareLabelPassesValidation(codec: Codec, i: nat, share: Bytes, position: nat)
    requires InAlphabet(codec.encode(share))
    requires i < MAX_ARRAY_LENGTH
    requires |codec.encode(share)| >= MIN_DATA_LENGTH
    ensures ValidateEntry(ShareLabel(codec, i, share), position)
            == Success(ParsedShare(i + 1, codec.encode(share)))
  {
    ParseIntDecimalText(i + 1);
    DecimalTextIsPlain(i + 1);
    LabelPassesValidation(DecimalText(i + 1), codec.encode(share), position);
  }

  /** A list without blank entries is kept whole by the filter. */
  lemma {:induction false} NonBlankKeepsAll(xs: seq<JsString>)
    requires forall k :: 0 <= k < |xs| ==> !IsBlank(xs[k])
    ensures NonBlank(xs) == xs
    decreases |xs|
  {
    if xs != [] {
      NonBlankKeepsAll(xs[1..]);
    }
  }

  /** Every label `splitSecret` writes with a long enough payload is
      non-blank and passes the per-entry check as its own 1-based index. */
  lemma {:induction false} SplitLabelsValidate(libs: Libraries, secret: JsString, total: int, threshold: int)
    requires EncodesInAlphabet(libs.bs58)
    requires SplitSecret(libs, secret, total, threshold).Success?
    requires |SplitSecret(libs, secret, total, threshold).value| <= MAX_ARRAY_LENGTH
    requires var shares := libs.sss.split(libs.bs58.decode(secret).value, total, threshold).value;
             forall k :: 0 <= k < |shares| ==> |libs.bs58.encode(shares[k])| >= MIN_DATA_LENGTH
    ensures var labels := SplitSecret(libs, secret, total, threshold).value;
            var shares := libs.sss.split(libs.bs58.decode(secret).value, total, threshold).value;
            && NonBlank(labels) == labels
            && forall k :: 0 <= k < |labels| ==>
                 ValidateEntry(labels[k], k + 1) == Success(ParsedShare(k + 1, libs.bs58.encode(shares[k])))
  {
    var labels := SplitSecret(libs, secret, total, threshold).value;
    var shares := libs.sss.split(libs.bs58.decode(secret).value, total, threshold).value;
    forall k | 0 <= k < |labels|
      ensures !IsBlank(labels[k])
      ensures ValidateEntry(labels[k], k + 1) == Success(ParsedShare(k + 1, libs.bs58.encode(shares[k])))
    {
      assert labels[k] == ShareLabel(libs.bs58, k, shares[k]);
      assert InAlphabet(libs.bs58.encode(shares[k]));
      ShareLabelFields(libs.bs58, k, shares[k]);
      ShareLabelPassesValidation(libs.bs58, k, shares[k], k + 1);
    }
    NonBlankKeepsAll(labels);
  }

  /** Entries on which a check succeeds, each yielding its own 1-based
      position as index, all pass it, with pairwise different indices. */
  lemma {:induction false} NumberedEntriesValidate(step: (JsString, nat) -> Result<ParsedShare, RecoverError>, entries: seq<JsString>)
    requires forall k :: 0 <= k < |entries| ==> step(entries[k], k + 1).Success? && step(entries[k], k + 1).value.index == k + 1
    ensures MapInOrder(step, entries, 0).Success?
    ensures Distinct(Indices(MapInOrder(step, entries, 0).value))
  {
    var parsed := MapInOrder(step, entries, 0).value;
    var ix := Indices(parsed);
    forall i, j | 0 <= i < j < |ix| ensures ix[i] != ix[j] {
      assert step(entries[i], i + 1) == Success(parsed[i]);
      assert step(entries[j], j + 1) == Success(parsed[j]);
    }
  }

  /** A list of non-blank entries, each of which passes the per-entry check
      with its own 1-based position as index, passes the checks of
      `handleRecover` whenever it has the required number of entries. */
  lemma {:induction false} NumberedEntriesPassPreflight(entries: seq<JsString>, required: int)
    requires NonBlank(entries) == entries
    requires forall k :: 0 <= k < |entries| ==>
               ValidateEntry(entries[k], k + 1).Success? && ValidateEntry(entries[k], k + 1).value.index == k + 1
    ensures Preflight(entries, required)
            == if |entries| < required then Failure(NotEnoughShares(required)) else Success(entries)
  {
    forall k | 0 <= k < |entries|
      ensures EntryCheck()(entries[k], k + 1).Success? && EntryCheck()(entries[k], k + 1).value.index == k + 1
    {
      assert EntryCheck()(entries[k], k + 1) == ValidateEntry(entries[k], k + 1);
    }
    NumberedEntriesValidate(EntryCheck(), entries);
  }

  /** The complete output of `splitSecret`, with long enough payloads, passes
      the checks of `handleRecover` whenever it has at least the required
      number of entries: one entry per index, all well formed. */
  lemma {:induction false} SplitLabelsPassPreflight(libs: Libraries, secret: JsString, total: int, threshold: int, required: int)
    requires EncodesInAlphabet(libs.bs58)
    requires SplitSecret(libs, secret, total, threshold).Success?
    requires |SplitSecret(libs, secret, total, threshold).value| <= MAX_ARRAY_LENGTH
    requires var shares := libs.sss.split(libs.bs58.decode(secret).value, total, threshold).value;
             forall k :: 0 <= k < |shares| ==> |libs.bs58.encode(shares[k])| >= MIN_DATA_LENGTH
    ensures var labels := SplitSecret(libs, secret, total, threshold).value;
            Preflight(labels, required)
            == if |labels| < required then Failure(NotEnoughShares(required)) else Success(labels)
  {
    SplitLabelsValidate(libs, secret, total, threshold);
    NumberedEntriesPassPreflight(SplitSecret(libs, secret, total, threshold).value, required);
  }

  /** Recovering from the complete output of `splitSecret` gives the wallet
      of the secret `sss.combine` rebuilds from the very shares `sss.split`
      produced, or the error of the library that refuses. */
  lemma {:induction false} SplitThenRecover(libs: Libraries, secret: JsString, total: int, threshold: int, required: int)
    requires EncodesInAlphabet(libs.bs58) && DecodesEncoding(libs.bs58)
    requires SplitSecret(libs, secret, total, threshold).Success?
    requires 2 <= |SplitSecret(libs, secret, total, threshold).value| <= MAX_ARRAY_LENGTH
    requires var shares := libs.sss.split(libs.bs58.decode(secret).value, total, threshold).value;
             forall k :: 0 <= k < |shares| ==> |libs.bs58.encode(shares[k])| >= MIN_DATA_LENGTH
    ensures var labels := SplitSecret(libs, secret, total, threshold).value;
            var shares := libs.sss.split(libs.bs58.decode(secret).value, total, threshold).value;
            |labels| >= required ==>
              Recover(libs, labels, required)
              == match libs.sss.combine(shares)
                 case None => Failure(ReconstructFailed(CombineRejected))
                 case Some(key) =>
                   match DeriveWallet(libs, libs.bs58.encode(key))
                   case Failure(e) => Failure(DeriveFailed(e))
                   case Success(w) => Success(w)
  {
    SplitLabelsPassPreflight(libs, secret, total, threshold, required);
    SplitLabelsValidate(libs, secret, total, threshold);
    SplitThenReconstruct(libs, secret, total, threshold);
  }

  /** The configuration guessed from the inputs: the largest index found and
      the threshold currently selected. */
  datatype Detected = Detected(totalShares: Number, threshold: int)

  /** The index prefix `detectConfigFromShares` reads from one non-blank
      entry: the entry, untrimmed, must split into two fields, and its first
      field is read by `parseInt` without a radix; NaN is dropped. */
  function IndexGuess(s: JsString): (r: Option<Number>)
    ensures r.None? <==> |Split(s, DASH)| != 2 || ParseInt(Split(s, DASH)[0], 0).NaN?
    ensures r.Some? ==> !r.value.NaN? && r.value == ParseInt(Split(s, DASH)[0], 0)
  {
    var parts := Split(s, DASH);
    if |parts| != 2 then None
    else
      var n := ParseInt(parts[0], 0);
      if n.NaN? then None else Some(n)
  }

  /** `shareNumbers`: the guesses of the entries that yield one, in order. */
  function IndexGuesses(shares: seq<JsString>): (r: seq<Number>)
    ensures |r| <= |shares|
    ensures forall k :: 0 <= k < |r| ==> !r[k].NaN?
  {
    if shares == [] then []
    else
      var rest := IndexGuesses(shares[1..]);
      match IndexGuess(shares[0])
      case None => rest
      case Some(n) => [n] + rest
  }

  /** The guesses are exactly the numbers some entry yields. */
  lemma {:induction false} IndexGuessesMembers(shares: seq<JsString>, n: Number)
    ensures n in IndexGuesses(shares) <==> exists s :: s in shares && IndexGuess(s) == Some(n)
    decreases |shares|
  {
    if shares != [] {
      IndexGuessesMembers(shares[1..], n);
      if IndexGuess(shares[0]) == Some(n) {
        assert shares[0] in shares;
      } else if n in IndexGuesses(shares[1..]) {
        var s :| s in shares[1..] && IndexGuess(s) == Some(n);
        assert s in shares;
      } else {
        assert forall s :: s in shares ==> s == shares[0] || s in shares[1..];
      }
    }
  }

  /** `detectConfigFromShares(currentShares)`: `None` leaves the detected
      configuration as it was. */
  function DetectConfig(shares: seq<JsString>, required: int): (r: Option<Detected>)
    ensures r.None? <==> IndexGuesses(NonBlank(shares)) == []
    ensures r.Some? ==>
              && r.value.threshold == required
              && r.value.totalShares in IndexGuesses(NonBlank(shares))
              && forall n :: n in IndexGuesses(NonBlank(shares)) ==> AtMost(n, r.value.totalShares)
  {
    var numbers := IndexGuesses(NonBlank(shares));
    if numbers == [] then None
    else Some(Detected(Max(numbers), required))
  }

  /** Every label `splitSecret` writes is non-blank and yields its own
      1-based index as the guess. */
  lemma {:induction false} IndexGuessOfLabel(codec: Codec, i: nat, share: Bytes)
    requires InAlphabet(codec.encode(share))
    requires i < MAX_ARRAY_LENGTH
    ensures !IsBlank(ShareLabel(codec, i, share))
    ensures IndexGuess(ShareLabel(codec, i, share)) == Some(Finite(i + 1))
  {
    ShareLabelFields(codec, i, share);
    ParseIntDecimalText(i + 1);
  }

  /** An entry that yields a guess puts it in front of the others'. */
  lemma {:induction false} IndexGuessesStep(shares: seq<JsString>)
    requires shares != [] && IndexGuess(shares[0]).Some?
    ensures IndexGuesses(shares) == [IndexGuess(shares[0]).value] + IndexGuesses(shares[1..])
  {
  }

  /** When every entry yields a guess, the guesses are the entries' own, one
      per entry and in order. */
  lemma {:induction false} IndexGuessesOfAll(shares: seq<JsString>, ns: seq<Number>)
    requires |ns| == |shares|
    requires forall k :: 0 <= k < |shares| ==> IndexGuess(shares[k]) == Some(ns[k])
    ensures IndexGuesses(shares) == ns
    decreases |shares|
  {
    if shares != [] {
      IndexGuessesOfAll(shares[1..], ns[1..]);
      IndexGuessesStep(shares);
    }
  }

  /** The largest of 1, 2, ..., n is n. */
  lemma {:induction false} MaxOfCount(ns: seq<Number>)
    requires |ns| > 0
    requires forall k :: 0 <= k < |ns| ==> ns[k] == Finite(k + 1)
    ensures Max(ns) == Finite(|ns|)
  {
    var m := Max(ns);
    assert AtMost(ns[|ns| - 1], m);
  }

  /** Detection on non-blank entries that yield the guesses 1, 2, ... in
      order takes their number as the total. */
  lemma {:induction false} DetectNumbered(entries: seq<JsString>, required: int)
    requires forall k :: 0 <= k < |entries| ==> !IsBlank(entries[k])
    requires forall k :: 0 <= k < |entries| ==> IndexGuess(entries[k]) == Some(Finite(k + 1))
    ensures DetectConfig(entries, required)
              == if entries == [] then None else Some(Detected(Finite(|entries|), required))
  {
    NonBlankKeepsAll(entries);
    NumberedGuesses(entries);
    if entries != [] {
      MaxOfCount(IndexGuesses(entries));
    }
  }

  /** Entries that yield the guesses 1, 2, ... give exactly those guesses. */
  lemma {:induction false} NumberedGuesses(entries: seq<JsString>)
    requires forall k :: 0 <= k < |entries| ==> IndexGuess(entries[k]) == Some(Finite(k + 1))
    ensures |IndexGuesses(entries)| == |entries|
    ensures forall k :: 0 <= k < |entries| ==> IndexGuesses(entries)[k] == Finite(k + 1)
  {
    var ns := seq(|entries|, k => Finite(k + 1));
    forall k | 0 <= k < |entries|
      ensures IndexGuess(entries[k]) == Some(ns[k])
    {
      assert ns[k] == Finite(k + 1);
    }
    IndexGuessesOfAll(entries, ns);
  }

  /** Detection on the full output of `splitSecret` takes the number of
      labels as the total, and the selected threshold as the threshold. */
  lemma {:induction false} DetectSplitLabels(libs: Libraries, secret: JsString, total: int, threshold: int, required: int)
    requires EncodesInAlphabet(libs.bs58)
    requires SplitSecret(libs, secret, total, threshold).Success?
    requires |SplitSecret(libs, secret, total, threshold).value| <= MAX_ARRAY_LENGTH
    ensures var labels := SplitSecret(libs, secret, total, threshold).value;
            DetectConfig(labels, required)
              == if labels == [] then None else Some(Detected(Finite(|labels|), required))
  {
    var labels := SplitSecret(libs, secret, total, threshold).value;
    var shares := libs.sss.split(libs.bs58.decode(secret).value, total, threshold).value;
    forall k | 0 <= k < |labels|
      ensures !IsBlank(labels[k])
      ensures IndexGuess(labels[k]) == Some(Finite(k + 1))
    {
      assert labels[k] == ShareLabel(libs.bs58, k, shares[k]);
      assert InAlphabet(libs.bs58.encode(shares[k]));
      IndexGuessOfLabel(libs.bs58, k, shares[k]);
    }
    DetectNumbered(labels, required);
  }

  /** The state of the page that the handlers change. `error` is `None` for
      the empty message. */
  datatype State = State(
    shares: seq<JsString>,
    required: int,
    detected: Option<Detected>,
    error: Option<RecoverError>,
    recovered: Option<Wallet>)

  function Initial(): (st: State)
    ensures |st.shares| == MIN_INPUTS && forall k :: 0 <= k < |st.shares| ==> IsBlank(st.shares[k])
    ensures st.required == 3 && st.detected.None? && st.error.None? && st.recovered.None?
  {
    State([[], []], 3, None, None, None)
  }

  /** `handleShareChange(index, value)`: the trimmed value replaces entry
      `index`, the error is cleared and detection runs on the new list. */
  function ShareChange(st: State, index: nat, value: JsString): (r: State)
    requires index < |st.shares|
    ensures |r.shares| == |st.shares|
    ensures r.shares[index] == Trim(value)
    ensures forall k :: 0 <= k < |st.shares| && k != index ==> r.shares[k] == st.shares[k]
    ensures r.error.None? && r.required == st.required && r.recovered == st.recovered
    ensures DetectConfig(r.shares, st.required).None? ==> r.detected == st.detected
    ensures DetectConfig(r.shares, st.required).Some? ==> r.detected == DetectConfig(r.shares, st.required)
  {
    var shares := st.shares[index := Trim(value)];
    var detected := match DetectConfig(shares, st.required)
      case None => st.detected
      case Some(d) => Some(d);
    st.(shares := shares, error := None, detected := detected)
  }

  /** `addShareInput`: one more empty input, up to ten. */
  function AddShareInput(st: State): (r: State)
    ensures |st.shares| < MAX_INPUTS ==> r.shares == st.shares + [[]]
    ensures |st.shares| >= MAX_INPUTS ==> r == st
    ensures r.(shares := st.shares) == st
  {
    if |st.shares| < MAX_INPUTS then st.(shares := st.shares + [[]]) else st
  }

  /** `removeShareInput(index)`: drops input `index` while more than two
      remain. */
  function RemoveShareInput(st: State, index: nat): (r: State)
    ensures |st.shares| > MIN_INPUTS && index < |st.shares| ==>
              r.shares == st.shares[..index] + st.shares[index + 1..]
    ensures |st.shares| > MIN_INPUTS && index >= |st.shares| ==> r.shares == st.shares
    ensures |st.shares| <= MIN_INPUTS ==> r == st
    ensures r.(shares := st.shares) == st
  {
    if |st.shares| > MIN_INPUTS then
      st.(shares := Without(st.shares, index))
    else st
  }

  /** `shares.filter((_, i) => i !== index)`: every entry but the one at
      `index`, in order. */
  function Without(xs: seq<JsString>, index: nat): (r: seq<JsString>)
    ensures index < |xs| ==> |r| == |xs| - 1
    ensures index >= |xs| ==> r == xs
    ensures forall k :: 0 <= k < index && k < |xs| ==> r[k] == xs[k]
    ensures forall k :: index <= k < |r| ==> r[k] == xs[k + 1]
  {
    if index < |xs| then xs[..index] + xs[index + 1..] else xs
  }

  /** The list of inputs stays between two and ten long under both edits. */
  lemma {:induction false} InputCountStaysInRange(st: State, index: nat)
    requires MIN_INPUTS <= |st.shares| <= MAX_INPUTS
    ensures MIN_INPUTS <= |AddShareInput(st).shares| <= MAX_INPUTS
    ensures MIN_INPUTS <= |RemoveShareInput(st, index).shares| <= MAX_INPUTS
  {
  }

  /** `handleRecover` on the page state: the wallet on success, the error
      otherwise. */
  function HandleRecover(libs: Libraries, st: State): (r: State)
    ensures r.shares == st.shares && r.required == st.required && r.detected == st.detected
    ensures r.error.None? <==> Recover(libs, st.shares, st.required).Success?
    ensures r.error.None? ==> r.recovered == Some(Recover(libs, st.shares, st.required).value)
    ensures r.error.Some? ==> r.recovered == st.recovered
  {
    match Recover(libs, st.shares, st.required)
    case Success(wallet) => st.(error := None, recovered := Some(wallet))
    case Failure(e) => st.(error := Some(e))
  }
}
