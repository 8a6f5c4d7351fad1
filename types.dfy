/** The records of the protocol-pool module's genesis state, and the value types they use. */
module Types {
  import opened Wrappers

  /** A `LegacyDec`: a big integer read as a multiple of 10^-18. */
  type Dec = int

  /** `LegacyOneDec()`: the decimal 1.0. */
  const One: Dec := 1_000_000_000_000_000_000

  /** A timestamp, in nanoseconds. */
  type Time = int

  /** A `time.Duration`: signed nanoseconds. */
  type Duration = int

  /** An `sdk.Coin`: a denomination and an integer amount. */
  datatype Coin = Coin(denom: string, amount: int)

  predicate IsAsciiLetter(c: char) {
    'a' <= c <= 'z' || 'A' <= c <= 'Z'
  }

  predicate IsDenomChar(c: char) {
    IsAsciiLetter(c) || '0' <= c <= '9' || c == '/' || c == ':' || c == '.' || c == '_' || c == '-'
  }

  /** The SDK's default denomination syntax: a letter followed by 2 to 127 letters, digits or `/:._-`. */
  predicate ValidDenom(d: string) {
    3 <= |d| <= 128 && IsAsciiLetter(d[0]) && forall i :: 1 <= i < |d| ==> IsDenomChar(d[i])
  }

  /**
   * The coin set `sdk.NewCoins(c)` builds passes `Coins.Validate`: a zero coin is
   * dropped, leaving the empty set, which is valid; any other coin needs a
   * well-formed denomination and a positive amount.
   */
  predicate ValidCoin(c: Coin) {
    c.amount == 0 || (c.amount > 0 && ValidDenom(c.denom))
  }

  /** A continuous fund: a percentage of the pool's inflow streamed to `recipient`, up to `cap`, until `expiry`. */
  datatype ContinuousFund = ContinuousFund(
    recipient: string,
    percentage: Option<Dec>,
    cap: Option<Coin>,
    expiry: Option<Time>)

  /** A budget: `totalBudget` paid to `recipientAddress` in `tranches` instalments, one every `period`. */
  datatype Budget = Budget(
    recipientAddress: string,
    totalBudget: Option<Coin>,
    claimedAmount: Option<Coin>,
    startTime: Option<Time>,
    nextClaimFrom: Option<Time>,
    tranches: nat,
    tranchesLeft: nat,
    period: Option<Duration>)

  /** The module's genesis state: the continuous funds and the budgets, in order. */
  datatype GenesisState = GenesisState(continuousFund: seq<ContinuousFund>, budget: seq<Budget>)
}
