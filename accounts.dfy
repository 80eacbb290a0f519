/**
 * The account records read from the chain export. Their definition and
 * the derivation of an account's vote weights live outside this model; the
 * records are inputs and the weights a function supplied by the caller.
 */
module Accounts {
  import opened Results
  import opened Decimal
  import opened Votes

  /** One option of a weighted vote with its weight. */
  datatype WeightedVoteOption = WeightedVoteOption(option: VoteOption, weight: Dec)

  /** A delegation: the delegated amount and the vote of the validator it follows. */
  datatype Delegation = Delegation(amount: Dec, vote: seq<WeightedVoteOption>)

  /** An account of the source chain. */
  datatype Account = Account(
    address: string,
    stakedAmount: Dec,
    liquidAmount: Dec,
    vote: seq<WeightedVoteOption>,
    delegations: seq<Delegation>)

  /** The weight of each vote option in an account's vote (`Account.voteWeights`). */
  type VoteWeights = VoteOption -> Dec

  /** Re-encodes an address from one bech32 prefix to another (`convertBech32(addr, src, dst)`). */
  type Bech32Converter = (string, string, string) -> Result<string, string>
}
