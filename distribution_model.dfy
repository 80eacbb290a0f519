/**
 * The airdrop distribution: its parameters, its result records, the award
 * of a single account and the totals that the two passes over the
 * accounts accumulate, all as values. The engine that computes them step
 * by step is in module Distribution.
 */
module DistributionModel {
  import opened Results
  import opened Decimal
  import opened Votes
  import opened Accounts

  /** `icfWallets`: the ICF addresses whose balance is slashed rather than airdropped. */
  const IcfWallets: seq<string> := [
    "cosmos1z8mzakma7vnaajysmtkwt4wgjqr2m84tzvyfkz",
    "cosmos1unc788q8md2jymsns24eyhua58palg5kc7cstv",
    "cosmos1sufkm72dw7ua9crpfhhp0dqpyuggtlhdse98e7",
    "cosmos1z6czaavlk6kjd48rpf58kqqw9ssad2uaxnazgl",
    "cosmos17u903qxqc6dzn3chvmc9zzp9fl4xja0pwggfj7"
  ]

  /** `distriParams`: the multipliers of one distribution. */
  datatype DistriParams = DistriParams(
    yesVotesMultiplier: Dec,
    noVotesMultiplier: Dec,
    bonus: Dec,
    malus: Dec,
    supplyFactor: Dec,
    supplyMintFactor: Dec)

  /** `amtDetail`: how one part of an award was obtained from a source amount. */
  datatype AmtDetail = AmtDetail(atomAmt: Dec, multiplier: Dec, bonusMalus: Dec, factor: Dec, atoneAmt: Dec)

  /** `airdropDetail`: the six parts of an award and their total. */
  datatype AirdropDetail = AirdropDetail(
    yesDetail: AmtDetail,
    noDetail: AmtDetail,
    nwvDetail: AmtDetail,
    absDetail: AmtDetail,
    dnvDetail: AmtDetail,
    liquidDetail: AmtDetail,
    total: Dec)

  /** `distrib`: a supply, its part per vote option and its unstaked part. */
  datatype Distrib = Distrib(supply: Dec, votes: Tally, unstaked: Dec)

  /** `airdrop`: the result of a distribution. */
  datatype Airdrop = Airdrop(
    params: DistriParams,
    addresses: map<string, int>,
    addressesDetail: map<string, AirdropDetail>,
    nonVotersMultiplier: Dec,
    atom: Distrib,
    atone: Distrib,
    icfSlash: Dec,
    communityPool: Dec,
    reservedAddr: Dec)

  /**
   * Why a distribution fails: an address that cannot be re-encoded (an
   * error return), or a decimal division by zero (a panic).
   */
  datatype DistribError = Bech32Error(msg: string) | QuoByZeroPanic

  /** The largest share of the result supply meant for non-voters, 0.33. */
  const TargetNonVotersPerc: Dec := NewDecWithPrec(33, 2)

  /** `defaultDistriParams`. */
  function DefaultDistriParams(): (p: DistriParams)
    ensures p.yesVotesMultiplier == One
    ensures p.noVotesMultiplier == 4 * p.yesVotesMultiplier
    ensures 0 < p.malus < One < p.bonus
    ensures p.bonus - One == One - p.malus == 3 * One / 100
    ensures 10 * p.supplyFactor == One
    ensures p.supplyMintFactor == 111_111_111_111_111_111
  {
    Pow10Precision();
    DistriParams(
      NewDec(1),
      NewDec(4),
      NewDecWithPrec(103, 2),
      NewDecWithPrec(97, 2),
      NewDecWithPrec(1, 1),
      Quo(NewDec(1), NewDec(9)))
  }

  /** The part of the supply of a distrib held by non-voters: abstainers, those who did not vote and unstaked amounts. */
  function NonVoterPart(d: Distrib): Dec
  {
    d.votes[Abstain] + d.votes[Empty] + d.unstaked
  }

  /** A distrib whose supply is exactly the sum of its vote parts and its unstaked part. */
  predicate Balanced(d: Distrib)
  {
    d.supply == TallySum(d.votes) + d.unstaked
  }

  const ZeroDistrib: Distrib := Distrib(0, ZeroTally, 0)

  function AddDistrib(a: Distrib, b: Distrib): (r: Distrib)
    ensures Balanced(a) && Balanced(b) ==> Balanced(r)
  {
    Distrib(a.supply + b.supply, AddTally(a.votes, b.votes), a.unstaked + b.unstaked)
  }

  /** What one account adds to the source ($ATOM) distrib in the first pass. */
  function AtomShare(acc: Account, w: VoteWeights): Distrib
  {
    Distrib(acc.stakedAmount + acc.liquidAmount, TallyOf(o => Mul(w(o), acc.stakedAmount)), acc.liquidAmount)
  }

  /** The first pass: the source distrib of a list of accounts, slashed ones included. */
  function SourceDistrib(accs: seq<Account>, w: Account -> VoteWeights): Distrib
  {
    if accs == [] then ZeroDistrib
    else AddDistrib(SourceDistrib(accs[..|accs| - 1], w), AtomShare(accs[|accs| - 1], w(accs[|accs| - 1])))
  }

  /** The weighted amount of those who voted, the numerator of the non-voter multiplier. */
  function VoterWeightedAmount(atom: Distrib, p: DistriParams): Dec
  {
    Mul(atom.votes[Yes], p.yesVotesMultiplier) + Mul(atom.votes[No] + atom.votes[NoWithVeto], p.noVotesMultiplier)
  }

  /** The divisor of the non-voter multiplier: (1 - 0.33) times the non-voter part of the source supply. */
  function NonVoterDivisor(atom: Distrib): Dec
  {
    Mul(One - TargetNonVotersPerc, NonVoterPart(atom))
  }

  /**
   * `nonVotersMultiplier = (t * (yes + no)) / ((1 - t) * nonVoters)`, or
   * `None` where the division by zero panics.
   */
  function NonVotersMultiplier(atom: Distrib, p: DistriParams): (r: Option<Dec>)
    ensures r.None? <==> NonVoterDivisor(atom) == 0
  {
    var den := NonVoterDivisor(atom);
    if den == 0 then None
    else Some(Quo(Mul(TargetNonVotersPerc, VoterWeightedAmount(atom, p)), den))
  }

  /** The amount of an audit line is its source amount times its multiplier, bonus or malus and factor, in that order. */
  predicate Reproduces(a: AmtDetail)
  {
    a.atoneAmt == Mul(Mul(Mul(a.atomAmt, a.multiplier), a.bonusMalus), a.factor)
  }

  /** The sum of the six parts of an award. */
  function DetailSum(d: AirdropDetail): Dec
  {
    d.yesDetail.atoneAmt + d.noDetail.atoneAmt + d.nwvDetail.atoneAmt
      + d.absDetail.atoneAmt + d.dnvDetail.atoneAmt + d.liquidDetail.atoneAmt
  }

  /** The part of an award that comes from the stake voted with option `o`. */
  function Bucket(d: AirdropDetail, o: VoteOption): Dec
  {
    match o
    case Yes => d.yesDetail.atoneAmt
    case No => d.noDetail.atoneAmt
    case NoWithVeto => d.nwvDetail.atoneAmt
    case Abstain => d.absDetail.atoneAmt
    case Empty => d.dnvDetail.atoneAmt
  }

  /** The inputs are what the award of an account is meant for: no negative amount, weight or multiplier. */
  predicate NonNegativeInputs(acc: Account, w: VoteWeights, p: DistriParams, nvm: Dec)
  {
    && acc.stakedAmount >= 0 && acc.liquidAmount >= 0
    && w(Yes) >= 0 && w(No) >= 0 && w(NoWithVeto) >= 0 && w(Abstain) >= 0 && w(Empty) >= 0
    && p.yesVotesMultiplier >= 0 && p.noVotesMultiplier >= 0 && p.bonus >= 0 && p.malus >= 0
    && p.supplyFactor >= 0 && nvm >= 0
  }

  /**
   * The award of one account that is not slashed, with its audit detail:
   * each vote bucket of the stake and the liquid amount get their
   * multiplier, bonus or malus and the supply factor.
   */
  function AccountDetail(acc: Account, w: VoteWeights, p: DistriParams, nvm: Dec): (d: AirdropDetail)
    ensures d.total == DetailSum(d)
    ensures d.yesDetail == AmtDetail(Mul(w(Yes), acc.stakedAmount), p.yesVotesMultiplier, One, p.supplyFactor, d.yesDetail.atoneAmt)
    ensures d.noDetail == AmtDetail(Mul(w(No), acc.stakedAmount), p.noVotesMultiplier, One, p.supplyFactor, d.noDetail.atoneAmt)
    ensures d.nwvDetail == AmtDetail(Mul(w(NoWithVeto), acc.stakedAmount), p.noVotesMultiplier, p.bonus, p.supplyFactor, d.nwvDetail.atoneAmt)
    ensures d.absDetail == AmtDetail(Mul(w(Abstain), acc.stakedAmount), nvm, One, p.supplyFactor, d.absDetail.atoneAmt)
    ensures d.dnvDetail == AmtDetail(Mul(w(Empty), acc.stakedAmount), nvm, p.malus, p.supplyFactor, d.dnvDetail.atoneAmt)
    ensures d.liquidDetail == AmtDetail(acc.liquidAmount, nvm, p.malus, p.supplyFactor, d.liquidDetail.atoneAmt)
    ensures Reproduces(d.yesDetail) && Reproduces(d.noDetail) && Reproduces(d.nwvDetail)
    ensures Reproduces(d.absDetail) && Reproduces(d.dnvDetail)
    ensures d.liquidDetail.atoneAmt == Mul(Mul(acc.liquidAmount, Mul(nvm, p.malus)), p.supplyFactor)
    ensures NonNegativeInputs(acc, w, p, nvm) ==>
      forall o :: Bucket(d, o) >= 0 && d.liquidDetail.atoneAmt >= 0 && d.total >= 0
  {
    var yesAtomAmt := Mul(w(Yes), acc.stakedAmount);
    var noAtomAmt := Mul(w(No), acc.stakedAmount);
    var noWithVetoAtomAmt := Mul(w(NoWithVeto), acc.stakedAmount);
    var abstainAtomAmt := Mul(w(Abstain), acc.stakedAmount);
    var noVoteAtomAmt := Mul(w(Empty), acc.stakedAmount);
    var yesAirdropAmt := Mul(Mul(yesAtomAmt, p.yesVotesMultiplier), p.supplyFactor);
    var noAirdropAmt := Mul(Mul(noAtomAmt, p.noVotesMultiplier), p.supplyFactor);
    var noWithVetoAirdropAmt := Mul(Mul(Mul(noWithVetoAtomAmt, p.noVotesMultiplier), p.bonus), p.supplyFactor);
    var abstainAirdropAmt := Mul(Mul(abstainAtomAmt, nvm), p.supplyFactor);
    var noVoteAirdropAmt := Mul(Mul(Mul(noVoteAtomAmt, nvm), p.malus), p.supplyFactor);
    var liquidMultiplier := Mul(nvm, p.malus);
    var liquidAirdropAmt := Mul(Mul(acc.liquidAmount, liquidMultiplier), p.supplyFactor);
    var stakedAirdropAmt := yesAirdropAmt + noAirdropAmt + noWithVetoAirdropAmt + abstainAirdropAmt + noVoteAirdropAmt;
    MulOne(Mul(yesAtomAmt, p.yesVotesMultiplier));
    MulOne(Mul(noAtomAmt, p.noVotesMultiplier));
    MulOne(Mul(abstainAtomAmt, nvm));
    AirdropDetail(
      AmtDetail(yesAtomAmt, p.yesVotesMultiplier, One, p.supplyFactor, yesAirdropAmt),
      AmtDetail(noAtomAmt, p.noVotesMultiplier, One, p.supplyFactor, noAirdropAmt),
      AmtDetail(noWithVetoAtomAmt, p.noVotesMultiplier, p.bonus, p.supplyFactor, noWithVetoAirdropAmt),
      AmtDetail(abstainAtomAmt, nvm, One, p.supplyFactor, abstainAirdropAmt),
      AmtDetail(noVoteAtomAmt, nvm, p.malus, p.supplyFactor, noVoteAirdropAmt),
      AmtDetail(acc.liquidAmount, nvm, p.malus, p.supplyFactor, liquidAirdropAmt),
      liquidAirdropAmt + stakedAirdropAmt)
  }

  /** What one account that is not slashed adds to the result ($ATONE) distrib in the second pass. */
  function AtoneShare(d: AirdropDetail): (r: Distrib)
    requires d.total == DetailSum(d)
    ensures Balanced(r)
  {
    Distrib(d.total, TallyOf(o => Bucket(d, o)), d.liquidDetail.atoneAmt)
  }

  /** The second pass: the result distrib of a list of accounts, slashed ones skipped. */
  function ResultDistrib(accs: seq<Account>, icf: seq<string>, w: Account -> VoteWeights, p: DistriParams, nvm: Dec): Distrib
  {
    if accs == [] then ZeroDistrib
    else
      var rest, acc := ResultDistrib(accs[..|accs| - 1], icf, w, p, nvm), accs[|accs| - 1];
      if acc.address in icf then rest
      else AddDistrib(rest, AtoneShare(AccountDetail(acc, w(acc), p, nvm)))
  }

  /** The balance of the slashed accounts. */
  function IcfSlash(accs: seq<Account>, icf: seq<string>): Dec
  {
    if accs == [] then 0
    else
      var acc := accs[|accs| - 1];
      IcfSlash(accs[..|accs| - 1], icf) + if acc.address in icf then acc.liquidAmount + acc.stakedAmount else 0
  }

  /** The accounts that are not slashed, in their order. */
  function NotSlashed(accs: seq<Account>, icf: seq<string>): (r: seq<Account>)
    ensures |r| <= |accs|
    ensures forall a :: a in r <==> a in accs && a.address !in icf
  {
    if accs == [] then []
    else
      var acc := accs[|accs| - 1];
      assert accs == accs[..|accs| - 1] + [acc];
      NotSlashed(accs[..|accs| - 1], icf) + if acc.address in icf then [] else [acc]
  }

  /** The key under which an account's award is recorded: its address, re-encoded when a prefix is given. */
  function AddressKey(acc: Account, prefix: string, convert: Bech32Converter): Result<string, DistribError>
  {
    if prefix == "" then Success(acc.address)
    else match convert(acc.address, "cosmos", prefix)
      case Success(addr) => Success(addr)
      case Failure(msg) => Failure(Bech32Error(msg))
  }

  /** The award maps: the rounded amount per address and the detail per address. */
  type AwardMaps = (map<string, int>, map<string, AirdropDetail>)

  /** Records the award of one account in the award maps, unless it is slashed or rounds to zero. */
  function EntriesStep(e: AwardMaps, acc: Account, icf: seq<string>, w: Account -> VoteWeights, p: DistriParams,
                       nvm: Dec, prefix: string, convert: Bech32Converter): Result<AwardMaps, DistribError>
  {
    if acc.address in icf then Success(e)
    else
      var d := AccountDetail(acc, w(acc), p, nvm);
      var amtInt := RoundInt(d.total);
      if amtInt == 0 then Success(e)
      else match AddressKey(acc, prefix, convert)
        case Failure(err) => Failure(err)
        case Success(addr) => Success((e.0[addr := amtInt], e.1[addr := d]))
  }

  /** The award maps of a list of accounts, or the first address conversion error. */
  function Entries(accs: seq<Account>, icf: seq<string>, w: Account -> VoteWeights, p: DistriParams,
                   nvm: Dec, prefix: string, convert: Bech32Converter): Result<AwardMaps, DistribError>
  {
    if accs == [] then Success((map[], map[]))
    else match Entries(accs[..|accs| - 1], icf, w, p, nvm, prefix, convert)
      case Failure(err) => Failure(err)
      case Success(e) => EntriesStep(e, accs[|accs| - 1], icf, w, p, nvm, prefix, convert)
  }

  /** Half of the amount minted on top of the result supply. */
  function MintedHalf(supply: Dec, p: DistriParams): Dec
  {
    Quo(Mul(supply, p.supplyMintFactor), NewDec(2))
  }

  /** The whole distribution as a value: what `distribution` returns. */
  function SpecDistribution(accounts: seq<Account>, params: DistriParams, prefix: string, icf: seq<string>,
                            w: Account -> VoteWeights, convert: Bech32Converter): Result<Airdrop, DistribError>
  {
    var atom := SourceDistrib(accounts, w);
    match NonVotersMultiplier(atom, params)
    case None => Failure(QuoByZeroPanic)
    case Some(nvm) =>
      match Entries(accounts, icf, w, params, nvm, prefix, convert)
      case Failure(err) => Failure(err)
      case Success(e) =>
        var atone := ResultDistrib(accounts, icf, w, params, nvm);
        var half := MintedHalf(atone.supply, params);
        Success(Airdrop(params, e.0, e.1, nvm, atom, atone, IcfSlash(accounts, icf), half, half))
  }
}
