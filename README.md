# genbox airdrop distribution, modelled in Dafny

This project models the core of genbox, the tool that computes the $ATONE
airdrop and the govgen bank genesis from an export of the Cosmos Hub ($ATOM)
chain.

**Airdrop distribution** (`distribution.go`). The `distribution` function makes
two passes over the accounts.

- The first pass adds up the source ($ATOM) distrib:
  - the supply;
  - the unstaked (liquid) part;
  - the staked part per vote option: Yes, No, NoWithVeto, Abstain, and Empty for "did not vote".
- Between the passes it solves the non-voter multiplier once. The multiplier
  is meant to keep non-voters under a 33% share of the result supply.
- The second pass does four things:
  - it slashes the ICF wallets;
  - it gives every other account an award per vote bucket, applying multipliers,
    a bonus for NoWithVeto, a malus for non-voters, and a supply factor of 1/10;
  - it accumulates the result ($ATONE) distrib;
  - it records each award that rounds to a nonzero integer under the account's
    address, re-encoded to a bech32 prefix when one is given, with an audit
    detail.
- Finally it mints 1/9 of the result supply, split evenly between the
  community pool and a reserved address.

**Bank genesis** (`genesis.go`). `applyVoteOptions` weights an amount by a
weighted vote. `writeBankGenesis` builds one govgen balance per account:
- from the account's direct vote if it voted;
- otherwise from the votes of the validators it delegates to.

**Modules.**
- `Decimal` (`decimal.dfy`) models the SDK's fixed-point `Dec`: an integer
  scaled by 10^18. Addition is exact. `Mul`, `Quo` and `RoundInt` chop to 18
  digits, rounding half to even. The general properties rely only on the
  rounding bounds. Only the concrete scenarios depend on the tie rule.
- `Votes` (`votes.dfy`) holds the vote options and the vote map. The vote map is
  a class whose `Add` updates one entry in place.
- `Accounts` (`accounts.dfy`) holds the account records. Two things enter the
  model as parameters:
  - the per-account vote weights (`Account.voteWeights`);
  - the bech32 re-encoding (`convertBech32`).
- `DistributionModel` (`distribution_model.dfy`) holds the distribution as
  values. It has:
  - the data types `airdrop`, `airdropDetail`, `amtDetail`, `distrib` and `distriParams`;
  - the default parameters;
  - the per-account award;
  - the two passes written as functions over a list of accounts;
  - `SpecDistribution`, the whole result.
- `DistributionProofs` (`distribution_proofs.dfy`) proves what the distribution
  guarantees.
- `Distribution` (`distribution.dfy`) is the imperative engine. It is made of
  the two loops, which update vote maps, supplies, the slash accumulator and
  the award maps in place, and it returns early on a conversion error. Each
  method is proved to compute the functions of `DistributionModel`.
- `Genesis` (`genesis.dfy`) holds the balance weighting and the balance list of
  the bank genesis. Each is an imperative method proved against a function.

Where the Go code panics, the model returns an error value instead, except as
listed under "Left out". A decimal
division by zero becomes `QuoByZeroPanic`. A balance outside 64 bits becomes
`Int64Panic`. A negative coin becomes `NegativeCoinPanic`.

**Three behaviours of the code worth knowing.**
- The comment at `distribution.go:101` says 1/9 of the result supply is
  minted. But `OneDec().Quo(NewDec(9))` rounds to 0.111111111111111111. A
  result supply of 900 therefore mints 99.9999999999999999, and each half is
  49.99999999999999995 (`MintScenario`).
- Nothing guards the divisor of the non-voter multiplier at
  `distribution.go:162-163`. When the abstaining, unvoted and liquid amounts
  add up to zero, `Quo` panics (`DistributionPanicsOnZeroDivisor`).
- The comments at `distribution.go:38-39` and `distribution.go:152` say the
  multiplier keeps non-voters at or below 33%. The multiplier is computed
  over every account, slashed wallets included, but the slashed wallets get
  nothing. If a slashed wallet voted Yes with 100 and another account
  abstained with 100, the whole result supply of 4.92537313432835821 goes to
  the non-voter (`SlashedVoterBreaksTarget`).

## Model

| member | source | states |
|---|---|---|
| Votes.AllVoteOptionsComplete | distribution.go:284-290 | the option list holds each of the five vote options exactly once |
| Votes.TallyOf | distribution.go:281 | a vote map built from a function gives each option that function's value, with no option missing |
| Votes.AddTally | distribution.go:142-146 | adding two vote maps adds them option by option, and the sums of their entries add too |
| Votes.VoteMap.constructor | distribution.go:298-304 | `newVoteMap` has exactly the five options as keys, each at zero |
| Votes.VoteMap.Add | distribution.go:306-308 | `add(v, d)` raises entry `v` by `d` and leaves every other entry unchanged |
| Decimal.NewDec | distribution.go:97 | `NewDec(n)` is `n` scaled by 10^18: its integer part is `n` and its fraction is zero |
| Decimal.NewDecWithPrec | distribution.go:98-100 | `NewDecWithPrec(n, p)` times 10^p is `n` as a decimal |
| Decimal.MulRounding | distribution.go:185-195 | a decimal product is the exact product to within half a unit of the last digit |
| Decimal.QuoRounding | distribution.go:162-163 | a decimal quotient times the divisor is the dividend to within about half a unit of the last digit, scaled by the divisor |
| Decimal.RoundInt | distribution.go:210 | the rounded integer is within half a unit of the decimal |
| Decimal.TruncateInt | genesis.go:55 | the integer part lies between zero and the decimal, within one unit of it, for positive and negative decimals alike |
| Decimal.TruncateInt64 | genesis.go:55 | the integer part is defined exactly when it fits in 64 bits, and it is then the truncated integer part |
| DistributionModel.DefaultDistriParams | distribution.go:94-103 | Yes ×1, No ×4, a 3% bonus and a 3% malus around 1, a supply factor of 1/10, and a mint factor of 1/9 rounded to 0.111111111111111111 |
| DistributionModel.AddDistrib | distribution.go:200-208 | adding distribs keeps the supply equal to the vote parts plus the unstaked part |
| DistributionModel.NonVotersMultiplier | distribution.go:152-163 | the multiplier is undefined (the division panics) exactly when (1 − 0.33) × (abstain + empty + unstaked) rounds to zero |
| DistributionModel.AccountDetail | distribution.go:172-198 | each bucket's source amount is weight × stake; each of the five vote rows reproduces its amount from its own columns; the liquid amount is L × (nvm × malus) × factor; the total is the sum of the six parts; nothing is negative when no input is |
| DistributionModel.AtoneShare | distribution.go:200-208 | what one account adds to the result distrib keeps the supply equal to its buckets plus its unstaked part |
| DistributionModel.NotSlashed | distribution.go:166-170 | an account is left after slashing exactly when it is in the list and its address is not an ICF address |
| DistributionProofs.NotSlashedConcat | distribution.go:165-170 | slashing keeps the order: the accounts left from two lists in a row are those left from the first followed by those left from the second |
| DistributionProofs.ResultDistribBalanced | distribution.go:200-208 | the result supply equals the sum of its five vote parts plus its unstaked part |
| DistributionProofs.SourceDistribBalanced | distribution.go:130-150 | the source supply equals its vote parts plus its unstaked part whenever every account's stake splits by weight without rounding loss |
| DistributionProofs.ShareSplitsApproximately | distribution.go:130-150 | when an account's five weights add up to one, its five per-option amounts add up to its stake to within two and a half units of the last digit |
| DistributionProofs.SourceDistribNearlyBalanced | distribution.go:130-150 | when every account's weights add up to one, the source supply is its vote parts plus its unstaked part to within two and a half units of the last digit per account |
| DistributionProofs.SingleOptionSplitsExactly | distribution.go:135-139 | a stake that follows one option with weight 1 splits without loss |
| DistributionProofs.SourceSupplySplit | distribution.go:130-150 | the first pass counts every account: the source supply is the ICF slash plus the source supply of the unslashed accounts |
| DistributionProofs.SlashedAccountsIgnored | distribution.go:165-208 | dropping the ICF accounts does not change the result distrib |
| DistributionProofs.SlashedAccountsUnlisted | distribution.go:165-270 | dropping the ICF accounts does not change the award maps, nor whether and how a conversion fails |
| DistributionProofs.EntriesWellFormed | distribution.go:209-270 | the two award maps have the same addresses; each amount is nonzero and is the rounded total of its detail; each detail's six parts add up to its total, so the self-check never panics |
| DistributionProofs.EntriesKeys | distribution.go:209-222 | the award maps hold exactly the keys of the unslashed accounts whose award does not round to zero |
| DistributionProofs.EntriesValues | distribution.go:209-222 | every detail in the award maps is the award of an unslashed account with a nonzero award whose address converts to that key |
| DistributionProofs.AwardedAddressesConverted | distribution.go:212-219 | once the maps are built, every awarded account's address was re-encoded |
| DistributionProofs.UnprefixedEntriesSucceed | distribution.go:211-212 | without a prefix no conversion happens, so building the award maps never fails |
| DistributionProofs.SlashedNeverListed | distribution.go:166-170 | without a prefix the keys are the addresses of the awarded accounts, and no ICF address is among them |
| DistributionProofs.EntriesFailurePropagates | distribution.go:215-218 | once a conversion fails, the failure is the result of the whole list |
| DistributionProofs.EntriesFailsOnAddress | distribution.go:216-218 | building the award maps can only fail on an address conversion |
| DistributionProofs.MintedSplitEvenly | distribution.go:273-276 | each half of the mint, doubled, is within one unit of the minted amount |
| DistributionProofs.DistributionPanicsOnZeroDivisor | distribution.go:162-163 | a distribution fails with the division panic exactly when the non-voter divisor is zero |
| DistributionProofs.DistributionFailsOnlyOnPrefix | distribution.go:211-219 | without a prefix a distribution can only fail with the division panic, and no ICF address gets an award |
| DistributionProofs.DistributionBalanced | distribution.go:200-270 | a successful distribution has a result supply equal to its buckets plus its unstaked part, and well-formed award maps |
| DistributionProofs.DistributionMintSplit | distribution.go:273-276 | the community pool equals the reserved amount, and each is half the minted amount to within one unit |
| DistributionProofs.DistributionSlashAccounted | distribution.go:165-170 | the source supply is the ICF slash plus the source supply of the unslashed accounts |
| DistributionProofs.NonVotersMultiplierSolves | distribution.go:159-163 | the multiplier solves m × (1 − t) × nonVoters = t × voters to within the rounding of one division |
| DistributionProofs.IdealNonVotersMultiplier | distribution.go:159-161 | the exact multiplier is nonnegative and solves the formula in the comment |
| DistributionProofs.NonVoterShareAtMostTarget | distribution.go:152-163 | in exact arithmetic, when the multiplier is computed from the same amounts that are awarded (e.g. no slashed account holds any stake), the non-voters' share of the awarded supply is at most 0.33, and exactly 0.33 without bonus and malus |
| DistributionProofs.YesThenAbstainMultiplier | distribution.go:152-163 | a first pass over a Yes voter and an abstainer, each staking 100, gives the non-voter multiplier 0.492537313432835821 with the default parameters |
| DistributionProofs.YesThenAbstainResult | distribution.go:165-170 | when the Yes voter is slashed, the second pass awards only the abstainer: a result supply of 4.92537313432835821, all of it to non-voters |
| DistributionProofs.SlashedVoterBreaksTarget | distribution.go:130-170 | a run where a slashed wallet voted Yes and another account abstained succeeds, and the whole positive result supply goes to non-voters, above the 33% target |
| DistributionProofs.LiquidDetailMayNotReproduce | distribution.go:192-195 | for 9 liquid tokens and a multiplier of 0.492537313432835821, the liquid audit line's columns give 0.429985074626865672 while its amount is 0.429985074626865671 |
| DistributionProofs.MintScenario | distribution.go:98-103 | with the default parameters, a result supply of 900 gives each half 49.99999999999999995 |
| Distribution.VotePercentages | distribution.go:105-111 | the percentages have the vote map's keys; each is that entry divided by the supply, within the rounding bound |
| Distribution.AddStake | distribution.go:135-146 | the source vote map grows by weight × stake in each option |
| Distribution.SourcePass | distribution.go:130-150 | the first loop computes the source distrib of all the accounts |
| Distribution.AwardAccount | distribution.go:172-205 | the account's award detail is computed and added to the result vote map bucket by bucket |
| Distribution.PassAccount | distribution.go:165-271 | one account of the second loop: an ICF wallet only adds its liquid and staked amounts to the slash; any other account adds its award to the result distrib, and the award maps take exactly one step |
| Distribution.RecordAward | distribution.go:209-270 | an award is recorded exactly as one step of the award maps: skipped when it rounds to zero, keyed by the re-encoded address, or the conversion error |
| Distribution.ResultPass | distribution.go:165-272 | the second loop computes the result distrib, the ICF slash and the award maps, or returns the first conversion error |
| Distribution.Distribution | distribution.go:113-278 | `distribution` returns what the model says for the five `icfWallets` addresses: the division panic, the first conversion error, or the airdrop of the two passes and the mint split |
| Genesis.ApplyVoteOptions | genesis.go:13-31 | the balance is the sum, over the vote's options, of amount × weight; an empty vote gives zero |
| Genesis.OptionsIgnored | genesis.go:17-27 | which option a weight belongs to does not matter: votes with the same weights give the same balance |
| Genesis.WeightedSumNonNegative | genesis.go:13-31 | a nonnegative amount with nonnegative weights gives a nonnegative balance |
| Genesis.WeightedSumRounding | genesis.go:15-29 | the balance is amount × total weight to within half a unit per option |
| Genesis.BalanceSelection | genesis.go:38-47 | a direct vote decides the balance whatever the delegations; otherwise the delegations' votes do, and no delegations give zero |
| Genesis.Coins | genesis.go:55 | a zero amount gives no coin, and any other amount gives one coin of `ugovgen` |
| Genesis.BalanceEntryContents | genesis.go:48-56 | an entry is written exactly when the address converts and the balance's integer part fits in 64 bits and is nonnegative; it then holds the converted address and the truncated balance |
| Genesis.BankBalancesSucceed | genesis.go:37-57 | the balances are written exactly when every entry is, one balance per account in input order |
| Genesis.BankBalancesFirstError | genesis.go:37-57 | a failure is the error of the first account whose entry fails |
| Genesis.BankBalancesStop | genesis.go:49-52 | once an entry fails, the failure is the result of the whole list |
| Genesis.InheritedBalance | genesis.go:44-46 | the inner loop sums the weighted votes of all the delegations |
| Genesis.WriteBankBalances | genesis.go:34-57 | the balance loop of `writeBankGenesis` computes the balance list of the model, or the first error |

## Left out

- Display and statistics code is not modelled: `printAirdropsStats`, the charts
  and `distriParams.String`. It is console and HTML output through floating
  point.
- `parsing.go` is not part of this model. It covers file and JSON decoding,
  number formatting and the vesting analysis, which reads the clock.
- `convertBech32` is a parameter: a function that may fail. The bech32 encoding
  itself is not modelled.
- `Account.voteWeights` is defined outside the modelled files. The model takes
  it as a parameter that gives each account its weights.
- The functions and lemmas of the model take the slashed wallets as a
  parameter. `Distribution.Distribution` uses the constant
  `DistributionModel.IcfWallets`, the five addresses of `icfWallets`.
- The big-integer internals of `sdk.Dec` are not modelled. This includes the
  256-bit overflow panics of `Mul` and `Quo`. Integers are unbounded here.
- Distribution.Distribution: on a conversion error the Go function returns the
  partially filled airdrop together with the error. The model returns only
  the error.
- Decimal.Mul, Decimal.Quo, Decimal.RoundInt: the half-to-even tie rule is
  written out in `ChopNat`. No property relies on it except the concrete
  scenarios.
- DistributionProofs.NonVoterShareAtMostTarget: the 33% target is proved only
  in exact real arithmetic, and only for a multiplier computed from the
  amounts that are awarded. The first pass counts slashed wallets, the
  second pass skips them, so a slashed account holding voted stake can break
  the bound (`SlashedVoterBreaksTarget`). With rounding it holds only
  approximately, and no bound is proved for the fixed-point computation.
- The liquid audit line records the multiplier and the malus separately, but
  its amount uses their rounded product (`LiquidDetailMayNotReproduce`). The
  five vote lines always reproduce their amounts.
- `writeBankGenesis` after the balance loop is not modelled. That covers the
  denomination metadata, the JSON encoding and writing the file.
- Distribution.VotePercentages: requires a nonzero supply. With a zero supply
  the Go division panics, and the model does not reproduce that panic.
- Genesis.Coins: the `sdk.NewCoins` sorting and validation of denominations are
  not modelled. A single coin needs neither.
