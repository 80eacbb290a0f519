/**
 * The distribution engine: two passes over the accounts that update the
 * source and result vote maps, supplies and accumulators in place, the
 * non-voter multiplier solved between them, and the minted split at the
 * end. Each method is proved to compute the values of DistributionModel.
 */
module Distribution {
  import opened Results
  import opened Decimal
  import opened Votes
  import opened Accounts
  import opened DistributionModel
  import opened DistributionProofs

  /** `votePercentages`: every vote part of a distrib as a fraction of its supply. */
  method VotePercentages(d: Distrib) returns (percs: map<VoteOption, Dec>)
    requires d.supply != 0
    ensures percs.Keys == d.votes.Keys
    ensures forall k :: k in percs ==> percs[k] == Quo(d.votes[k], d.supply)
    ensures forall k :: k in percs ==>
      2 * Abs(percs[k] * d.supply - d.votes[k] * One) * One <= Abs(d.supply) * (One + 2)
  {
    percs := map[];
    var todo := d.votes.Keys;
    while todo != {}
      invariant todo <= d.votes.Keys
      invariant percs.Keys == d.votes.Keys - todo
      invariant forall k :: k in percs ==> percs[k] == Quo(d.votes[k], d.supply)
      invariant forall k :: k in percs ==>
        2 * Abs(percs[k] * d.supply - d.votes[k] * One) * One <= Abs(d.supply) * (One + 2)
      decreases todo
    {
      var k :| k in todo;
      QuoRounding(d.votes[k], d.supply);
      percs := percs[k := Quo(d.votes[k], d.supply)];
      todo := todo - {k};
    }
  }

  /** The tally reached from `t0` by adding each option's amount of `s` once. */
  lemma FiveAdds(t0: Tally, t1: Tally, s: Tally)
    requires t1[Yes] == t0[Yes] + s[Yes] && t1[No] == t0[No] + s[No] && t1[NoWithVeto] == t0[NoWithVeto] + s[NoWithVeto]
    requires t1[Abstain] == t0[Abstain] + s[Abstain] && t1[Empty] == t0[Empty] + s[Empty]
    ensures t1 == AddTally(t0, s)
  {
    forall o ensures t1[o] == AddTally(t0, s)[o] {
      match o
      case Yes =>
      case No =>
      case NoWithVeto =>
      case Abstain =>
      case Empty =>
    }
    TallyExt(t1, AddTally(t0, s));
  }

  /** How the prefix `accs[..i + 1]` ends, for unfolding a function defined on its last element. */
  lemma {:induction false} PrefixStep(accs: seq<Account>, i: nat)
    requires i < |accs|
    ensures accs[..i + 1] != [] && |accs[..i + 1]| - 1 == i
    ensures accs[..i + 1][..i] == accs[..i] && accs[..i + 1][i] == accs[i]
  {
  }

  /** The prefix `accs[..i + 1]` is `accs[..i]` with `accs[i]` appended. */
  lemma TakeSnoc(accs: seq<Account>, i: nat)
    requires i < |accs|
    ensures accs[..i + 1] == accs[..i] + [accs[i]]
  {
  }

  /** The second-pass functions at `accs[..i + 1]`, unfolded once. */
  lemma {:induction false} ResultStep(accs: seq<Account>, i: nat, icf: seq<string>, w: Account -> VoteWeights, p: DistriParams,
                   nvm: Dec, prefix: string, convert: Bech32Converter)
    requires i < |accs|
    ensures IcfSlash(accs[..i + 1], icf)
      == IcfSlash(accs[..i], icf) + if accs[i].address in icf then accs[i].liquidAmount + accs[i].stakedAmount else 0
    ensures ResultDistrib(accs[..i + 1], icf, w, p, nvm)
      == if accs[i].address in icf then ResultDistrib(accs[..i], icf, w, p, nvm)
         else AddDistrib(ResultDistrib(accs[..i], icf, w, p, nvm), AtoneShare(AccountDetail(accs[i], w(accs[i]), p, nvm)))
    ensures Entries(accs[..i], icf, w, p, nvm, prefix, convert).Success? ==>
      Entries(accs[..i + 1], icf, w, p, nvm, prefix, convert)
      == EntriesStep(Entries(accs[..i], icf, w, p, nvm, prefix, convert).value, accs[i], icf, w, p, nvm, prefix, convert)
  {
    PrefixStep(accs, i);
  }

  /** One account of the first pass: what it adds to each of the running totals. */
  lemma {:induction false} SourceInvariantStep(s: seq<Account>, a: Account, w: Account -> VoteWeights)
    ensures SourceDistrib(s + [a], w).supply == SourceDistrib(s, w).supply + (a.stakedAmount + a.liquidAmount)
    ensures SourceDistrib(s + [a], w).votes == AddTally(SourceDistrib(s, w).votes, AtomShare(a, w(a)).votes)
    ensures SourceDistrib(s + [a], w).unstaked == SourceDistrib(s, w).unstaked + a.liquidAmount
  {
    SourceSnoc(s, a, w);
  }

  /** The first-pass function at `s + [a]`, unfolded once. */
  lemma {:induction false} SourceSnoc(s: seq<Account>, a: Account, w: Account -> VoteWeights)
    ensures SourceDistrib(s + [a], w) == AddDistrib(SourceDistrib(s, w), AtomShare(a, w(a)))
  {
    assert (s + [a])[..|s|] == s;
  }

  /** Adding an account's award to the running totals is adding its share to the distrib. */
  lemma AtoneStep(supply: Dec, votes: Tally, unstaked: Dec, detail: AirdropDetail, votes': Tally)
    requires detail.total == DetailSum(detail)
    requires votes' == AddTally(votes, AtoneShare(detail).votes)
    ensures Distrib(supply + detail.total, votes', unstaked + detail.liquidDetail.atoneAmt)
      == AddDistrib(Distrib(supply, votes, unstaked), AtoneShare(detail))
  {
  }

  /** One account of the second pass carries the loop's totals from `accs[..i]` to `accs[..i + 1]`. */
  lemma {:induction false} PassInvariantStep(accs: seq<Account>, i: nat, icf: seq<string>, w: Account -> VoteWeights, p: DistriParams,
                          nvm: Dec, prefix: string, convert: Bech32Converter, d: Distrib, slash: Dec, maps: AwardMaps,
                          d': Distrib, slash': Dec, step: Result<AwardMaps, DistribError>)
    requires i < |accs|
    requires d == ResultDistrib(accs[..i], icf, w, p, nvm) && slash == IcfSlash(accs[..i], icf)
    requires Entries(accs[..i], icf, w, p, nvm, prefix, convert) == Success(maps)
    requires slash' == slash + if accs[i].address in icf then accs[i].liquidAmount + accs[i].stakedAmount else 0
    requires d' == if accs[i].address in icf then d else AddDistrib(d, AtoneShare(AccountDetail(accs[i], w(accs[i]), p, nvm)))
    requires step == EntriesStep(maps, accs[i], icf, w, p, nvm, prefix, convert)
    ensures d' == ResultDistrib(accs[..i + 1], icf, w, p, nvm) && slash' == IcfSlash(accs[..i + 1], icf)
    ensures Entries(accs[..i + 1], icf, w, p, nvm, prefix, convert) == step
  {
    ResultStep(accs, i, icf, w, p, nvm, prefix, convert);
  }

  /** The stake of one account, added to the source vote map option by option. */
  method AddStake(acc: Account, voteWeights: VoteWeights, atomVotes: VoteMap)
    modifies atomVotes
    ensures atomVotes.m == AddTally(old(atomVotes.m), AtomShare(acc, voteWeights).votes)
  {
    ghost var before, share := atomVotes.m, AtomShare(acc, voteWeights);
    atomVotes.Add(Yes, Mul(voteWeights(Yes), acc.stakedAmount));
    atomVotes.Add(No, Mul(voteWeights(No), acc.stakedAmount));
    atomVotes.Add(NoWithVeto, Mul(voteWeights(NoWithVeto), acc.stakedAmount));
    atomVotes.Add(Abstain, Mul(voteWeights(Abstain), acc.stakedAmount));
    atomVotes.Add(Empty, Mul(voteWeights(Empty), acc.stakedAmount));
    FiveAdds(before, atomVotes.m, share.votes);
  }

  /** The first pass of `distribution`: the source supply, its unstaked part and its part per vote option. */
  method SourcePass(accounts: seq<Account>, weights: Account -> VoteWeights) returns (atom: Distrib)
    ensures atom == SourceDistrib(accounts, weights)
  {
    var atomVotes := new VoteMap();
    var atomSupply, atomUnstaked := 0, 0;
    var i := 0;
    while i < |accounts|
      invariant 0 <= i <= |accounts|
      invariant atomSupply == SourceDistrib(accounts[..i], weights).supply
      invariant atomVotes.m == SourceDistrib(accounts[..i], weights).votes
      invariant atomUnstaked == SourceDistrib(accounts[..i], weights).unstaked
      modifies atomVotes
    {
      var acc := accounts[i];
      AddStake(acc, weights(acc), atomVotes);
      SourceInvariantStep(accounts[..i], acc, weights);
      TakeSnoc(accounts, i);
      atomSupply := atomSupply + (acc.stakedAmount + acc.liquidAmount);
      atomUnstaked := atomUnstaked + acc.liquidAmount;
      i := i + 1;
    }
    assert accounts[..i] == accounts;
    atom := Distrib(atomSupply, atomVotes.m, atomUnstaked);
  }

  /** What the second pass of `distribution` computes when no address conversion fails. */
  datatype PassResult = PassResult(atone: Distrib, icfSlash: Dec, maps: AwardMaps)

  /** The award of one account, added to the result vote map option by option. */
  method AwardAccount(acc: Account, w: VoteWeights, params: DistriParams, nvm: Dec, atoneVotes: VoteMap)
    returns (detail: AirdropDetail)
    modifies atoneVotes
    ensures detail == AccountDetail(acc, w, params, nvm)
    ensures atoneVotes.m == AddTally(old(atoneVotes.m), AtoneShare(detail).votes)
  {
    detail := AccountDetail(acc, w, params, nvm);
    ghost var before, share := atoneVotes.m, AtoneShare(detail);
    atoneVotes.Add(Yes, detail.yesDetail.atoneAmt);
    atoneVotes.Add(No, detail.noDetail.atoneAmt);
    atoneVotes.Add(NoWithVeto, detail.nwvDetail.atoneAmt);
    atoneVotes.Add(Abstain, detail.absDetail.atoneAmt);
    atoneVotes.Add(Empty, detail.dnvDetail.atoneAmt);
    FiveAdds(before, atoneVotes.m, share.votes);
  }

  /**
   * Records the award of an account that is not slashed: an award that rounds
   * to a nonzero integer is entered under the account's address, re-encoded
   * to `prefix` unless that is empty.
   */
  method RecordAward(addresses: map<string, int>, addressesDetail: map<string, AirdropDetail>, acc: Account,
                     detail: AirdropDetail, icf: seq<string>, weights: Account -> VoteWeights, params: DistriParams,
                     nvm: Dec, prefix: string, convert: Bech32Converter)
    returns (r: Result<AwardMaps, DistribError>)
    requires acc.address !in icf && detail == AccountDetail(acc, weights(acc), params, nvm)
    ensures r == EntriesStep((addresses, addressesDetail), acc, icf, weights, params, nvm, prefix, convert)
  {
    var amtInt := RoundInt(detail.total);
    if amtInt == 0 {
      return Success((addresses, addressesDetail));
    }
    var addr := acc.address;
    if prefix != "" {
      match convert(acc.address, "cosmos", prefix)
      case Failure(msg) =>
        return Failure(Bech32Error(msg));
      case Success(converted) =>
        addr := converted;
    }
    // the self-check that panics when the detail does not add up to the award
    assert DetailSum(detail) == detail.total;
    r := Success((addresses[addr := amtInt], addressesDetail[addr := detail]));
  }

  /**
   * One account of the second pass: an ICF wallet is slashed and skipped;
   * any other account is awarded, added to the result distrib and recorded.
   */
  method PassAccount(acc: Account, icf: seq<string>, weights: Account -> VoteWeights, params: DistriParams,
                     nvm: Dec, prefix: string, convert: Bech32Converter,
                     atoneVotes: VoteMap, supply: Dec, unstaked: Dec, slash: Dec, maps: AwardMaps)
    returns (supply': Dec, unstaked': Dec, slash': Dec, r: Result<AwardMaps, DistribError>)
    modifies atoneVotes
    ensures slash' == slash + if acc.address in icf then acc.liquidAmount + acc.stakedAmount else 0
    ensures Distrib(supply', atoneVotes.m, unstaked')
      == if acc.address in icf then Distrib(supply, old(atoneVotes.m), unstaked)
         else AddDistrib(Distrib(supply, old(atoneVotes.m), unstaked), AtoneShare(AccountDetail(acc, weights(acc), params, nvm)))
    ensures r == EntriesStep(maps, acc, icf, weights, params, nvm, prefix, convert)
  {
    if acc.address in icf {
      return supply, unstaked, slash + acc.liquidAmount + acc.stakedAmount, Success(maps);
    }
    var detail := AwardAccount(acc, weights(acc), params, nvm, atoneVotes);
    AtoneStep(supply, old(atoneVotes.m), unstaked, detail, atoneVotes.m);
    supply', unstaked', slash' := supply + detail.total, unstaked + detail.liquidDetail.atoneAmt, slash;
    r := RecordAward(maps.0, maps.1, acc, detail, icf, weights, params, nvm, prefix, convert);
  }

  /**
   * The second pass of `distribution`: slashes the ICF wallets, awards every
   * other account and records each award that rounds to a nonzero integer.
   */
  method ResultPass(accounts: seq<Account>, icf: seq<string>, weights: Account -> VoteWeights, params: DistriParams,
                    nvm: Dec, prefix: string, convert: Bech32Converter)
    returns (r: Result<PassResult, DistribError>)
    ensures r.Success? <==> Entries(accounts, icf, weights, params, nvm, prefix, convert).Success?
    ensures r.Failure? ==> r.error == Entries(accounts, icf, weights, params, nvm, prefix, convert).error
    ensures r.Success? ==> r.value == PassResult(ResultDistrib(accounts, icf, weights, params, nvm), IcfSlash(accounts, icf),
                                                 Entries(accounts, icf, weights, params, nvm, prefix, convert).value)
  {
    var atoneVotes := new VoteMap();
    var atoneSupply, atoneUnstaked, icfSlash := 0, 0, 0;
    var maps: AwardMaps := (map[], map[]);
    var i := 0;
    while i < |accounts|
      invariant 0 <= i <= |accounts|
      invariant Distrib(atoneSupply, atoneVotes.m, atoneUnstaked) == ResultDistrib(accounts[..i], icf, weights, params, nvm)
      invariant icfSlash == IcfSlash(accounts[..i], icf)
      invariant Entries(accounts[..i], icf, weights, params, nvm, prefix, convert) == Success(maps)
      modifies atoneVotes
    {
      ghost var d, slash := Distrib(atoneSupply, atoneVotes.m, atoneUnstaked), icfSlash;
      var step;
      atoneSupply, atoneUnstaked, icfSlash, step :=
        PassAccount(accounts[i], icf, weights, params, nvm, prefix, convert, atoneVotes, atoneSupply, atoneUnstaked, icfSlash, maps);
      PassInvariantStep(accounts, i, icf, weights, params, nvm, prefix, convert, d, slash, maps,
                        Distrib(atoneSupply, atoneVotes.m, atoneUnstaked), icfSlash, step);
      match step
      case Failure(err) =>
        EntriesFailurePropagates(accounts, i + 1, icf, weights, params, nvm, prefix, convert);
        return Failure(err);
      case Success(e) =>
        maps := e;
      i := i + 1;
    }
    assert accounts[..i] == accounts;
    r := Success(PassResult(Distrib(atoneSupply, atoneVotes.m, atoneUnstaked), icfSlash, maps));
  }

  /**
   * `distribution`: the airdrop of a list of accounts, with the wallets of
   * `IcfWallets` slashed. `weights` gives each account's vote weights and
   * `convert` re-encodes an address to `prefix`.
   */
  method Distribution(accounts: seq<Account>, params: DistriParams, prefix: string,
                      weights: Account -> VoteWeights, convert: Bech32Converter)
    returns (r: Result<Airdrop, DistribError>)
    ensures r == SpecDistribution(accounts, params, prefix, IcfWallets, weights, convert)
  {
    var atom := SourcePass(accounts, weights);
    // the non-voter multiplier; the decimal division panics on a zero divisor
    var multiplier := NonVotersMultiplier(atom, params);
    if multiplier.None? {
      return Failure(QuoByZeroPanic);
    }
    var nvm := multiplier.value;
    var pass := ResultPass(accounts, IcfWallets, weights, params, nvm, prefix, convert);
    if pass.Failure? {
      return Failure(pass.error);
    }
    var atone := pass.value.atone;
    // the minted amount, split evenly between the community pool and the reserved address
    var minted := Mul(atone.supply, params.supplyMintFactor);
    var communityPool := Quo(minted, NewDec(2));
    var reservedAddr := Quo(minted, NewDec(2));
    r := Success(Airdrop(params, pass.value.maps.0, pass.value.maps.1, nvm, atom, atone,
                         pass.value.icfSlash, communityPool, reservedAddr));
  }
}
