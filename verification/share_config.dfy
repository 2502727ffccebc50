/** The share configuration chosen before a secret is split: how many shares
    to create and how many recover the key. The create page and the import
    form edit it through two selects with the same update rules. */
module ShareConfig {

  datatype Config = Config(totalShares: int, threshold: int)

  /** The totals the first select offers: 2 to 10. */
  const MIN_TOTAL: int := 2
  const MAX_TOTAL: int := 10

  /** The thresholds the second select offers for a given total: 1 to the
      total. */
  predicate IsThresholdChoice(total: int, threshold: int) {
    1 <= threshold <= total
  }

  predicate IsTotalChoice(total: int) {
    MIN_TOTAL <= total <= MAX_TOTAL
  }

  /** A configuration the two selects can show: an offered total and a
      threshold that does not exceed it. */
  predicate Valid(c: Config) {
    IsTotalChoice(c.totalShares) && IsThresholdChoice(c.totalShares, c.threshold)
  }

  /** The create page starts at 5 of 7. */
  function CreateDefault(): (c: Config)
    ensures Valid(c) && c.threshold < c.totalShares
  {
    Config(7, 5)
  }

  /** The import form starts at 3 of 5. */
  function ImportDefault(): (c: Config)
    ensures Valid(c) && c.threshold < c.totalShares
  {
    Config(5, 3)
  }

  /** The total select's change handler: the new total, and the threshold
      lowered to it when it no longer fits. */
  function SelectTotal(c: Config, total: int): (r: Config)
    requires IsTotalChoice(total)
    ensures r.totalShares == total
    ensures c.threshold <= total ==> r.threshold == c.threshold
    ensures c.threshold > total ==> r.threshold == total
    ensures Valid(c) ==> Valid(r)
  {
    Config(total, if c.threshold < total then c.threshold else total)
  }

  /** The threshold select's change handler: only the threshold changes. */
  function SelectThreshold(c: Config, threshold: int): (r: Config)
    requires IsThresholdChoice(c.totalShares, threshold)
    ensures r.threshold == threshold && r.totalShares == c.totalShares
    ensures Valid(c) ==> Valid(r)
  {
    c.(threshold := threshold)
  }

  /** "You can lose up to N shares safely": losing that many leaves exactly
      the threshold. */
  function LossTolerance(c: Config): (n: int)
    ensures Valid(c) ==> 0 <= n < c.totalShares && c.totalShares - n == c.threshold
  {
    c.totalShares - c.threshold
  }

  /** "If you lose N or more shares, your wallet cannot be recovered":
      losing that many leaves one share short of the threshold, and it is
      one more than the tolerated loss. */
  function FatalLoss(c: Config): (n: int)
    ensures Valid(c) ==> 0 < n <= c.totalShares && c.totalShares - n == c.threshold - 1
    ensures n == LossTolerance(c) + 1
  {
    c.totalShares - c.threshold + 1
  }
}
