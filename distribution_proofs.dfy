/**
 * Properties of the distribution model: how the totals of the two passes
 * relate, what happens to slashed accounts, what the award maps hold, how
 * the minted amount is split, and what the non-voter multiplier achieves.
 */
module DistributionProofs {
  import opened Results
  import opened Decimal
  import opened Votes
  import opened Accounts
  import opened DistributionModel

  lemma TallyExt(t: Tally, u: Tally)
    requires forall o :: t[o] == u[o]
    ensures t == u
  {
    assert t.Keys == u.Keys;
  }

  lemma LastSplit(s: seq<Account>, a: Account)
    ensures (s + [a])[..|s|] == s && (s + [a])[|s|] == a
    ensures forall x :: x in s + [a] <==> x in s || x == a
  {
  }

  /** A non-empty list is its prefix followed by its last element. */
  lemma LastOf(accs: seq<Account>)
    requires accs != []
    ensures accs == accs[..|accs| - 1] + [accs[|accs| - 1]]
    ensures forall x :: x in accs <==> x in accs[..|accs| - 1] || x == accs[|accs| - 1]
  {
    LastSplit(accs[..|accs| - 1], accs[|accs| - 1]);
    assert accs == accs[..|accs| - 1] + [accs[|accs| - 1]];
  }

  // ---------------------------------------------------------------------
  // Totals of the two passes

  /** The result supply is exactly the sum of its five vote parts and its unstaked part. */
  lemma {:induction false} ResultDistribBalanced(accs: seq<Account>, icf: seq<string>, w: Account -> VoteWeights, p: DistriParams, nvm: Dec)
    ensures Balanced(ResultDistrib(accs, icf, w, p, nvm))
  {
    if accs != [] {
      ResultDistribBalanced(accs[..|accs| - 1], icf, w, p, nvm);
    }
  }

  /** The sum of the parts of an account's stake per vote option equals its stake. */
  predicate StakeSplitExactly(acc: Account, w: VoteWeights)
  {
    Mul(w(Yes), acc.stakedAmount) + Mul(w(No), acc.stakedAmount) + Mul(w(NoWithVeto), acc.stakedAmount)
      + Mul(w(Abstain), acc.stakedAmount) + Mul(w(Empty), acc.stakedAmount) == acc.stakedAmount
  }

  /**
   * The source supply is the sum of its vote parts and its unstaked part
   * whenever no account loses or gains stake when it is split by vote weight.
   */
  lemma {:induction false} SourceDistribBalanced(accs: seq<Account>, w: Account -> VoteWeights)
    requires forall a :: a in accs ==> StakeSplitExactly(a, w(a))
    ensures Balanced(SourceDistrib(accs, w))
  {
    if accs != [] {
      var s := accs[..|accs| - 1];
      assert forall a :: a in s ==> a in accs;
      SourceDistribBalanced(s, w);
      assert StakeSplitExactly(accs[|accs| - 1], w(accs[|accs| - 1]));
    }
  }

  /** The five vote weights of an account add up to one. */
  predicate WeightsSumToOne(w: VoteWeights)
  {
    w(Yes) + w(No) + w(NoWithVeto) + w(Abstain) + w(Empty) == One
  }

  /**
   * The supply of `d` is its vote parts plus its unstaked part to within
   * `n` times two and a half units of the last digit.
   */
  predicate NearlyBalanced(d: Distrib, n: nat)
  {
    2 * Abs(d.supply - TallySum(d.votes) - d.unstaked) <= 5 * n
  }

  /**
   * Splitting a stake by weights that add up to one loses or gains at most
   * two and a half units of the last digit: half a unit per rounded part.
   */
  lemma ShareSplitsApproximately(acc: Account, w: VoteWeights)
    requires WeightsSumToOne(w)
    ensures 2 * Abs(TallySum(AtomShare(acc, w).votes) - acc.stakedAmount) <= 5
    ensures NearlyBalanced(AtomShare(acc, w), 1)
  {
    ShareVotes(acc, w);
    StakeRounding(w, acc.stakedAmount);
  }

  /** The five rounded parts of a stake, split by weights that add up to one. */
  lemma StakeRounding(w: VoteWeights, st: Dec)
    requires WeightsSumToOne(w)
    ensures 2 * Abs(Mul(w(Yes), st) + Mul(w(No), st) + Mul(w(NoWithVeto), st) + Mul(w(Abstain), st) + Mul(w(Empty), st) - st) <= 5
  {
    RoundedSplit(w(Yes), w(No), w(NoWithVeto), w(Abstain), w(Empty), st);
  }

  lemma RoundedSplit(a: Dec, b: Dec, c: Dec, d: Dec, e: Dec, st: Dec)
    requires a + b + c + d + e == One
    ensures 2 * Abs(Mul(a, st) + Mul(b, st) + Mul(c, st) + Mul(d, st) + Mul(e, st) - st) <= 5
  {
    assert -One <= 2 * (Mul(a, st) * One - a * st) <= One by { MulRounding(a, st); }
    assert -One <= 2 * (Mul(b, st) * One - b * st) <= One by { MulRounding(b, st); }
    assert -One <= 2 * (Mul(c, st) * One - c * st) <= One by { MulRounding(c, st); }
    assert -One <= 2 * (Mul(d, st) * One - d * st) <= One by { MulRounding(d, st); }
    assert -One <= 2 * (Mul(e, st) * One - e * st) <= One by { MulRounding(e, st); }
    assert a * st + b * st + c * st + d * st + e * st == st * One by { SumTimes(a, b, c, d, e, st); }
    FiveRoundings(Mul(a, st), Mul(b, st), Mul(c, st), Mul(d, st), Mul(e, st), a * st, b * st, c * st, d * st, e * st, st);
  }

  lemma ShareVotes(acc: Account, w: VoteWeights)
    ensures TallySum(AtomShare(acc, w).votes)
      == Mul(w(Yes), acc.stakedAmount) + Mul(w(No), acc.stakedAmount) + Mul(w(NoWithVeto), acc.stakedAmount)
         + Mul(w(Abstain), acc.stakedAmount) + Mul(w(Empty), acc.stakedAmount)
  {
  }

  lemma SumTimes(a: int, b: int, c: int, d: int, e: int, x: int)
    requires a + b + c + d + e == One
    ensures a * x + b * x + c * x + d * x + e * x == x * One
  {
    assert a * x + b * x + c * x + d * x + e * x == (a + b + c + d + e) * x;
  }

  /** Five parts, each rounded to within half a unit, add up to within two and a half units of their exact sum. */
  lemma FiveRoundings(m1: int, m2: int, m3: int, m4: int, m5: int, p1: int, p2: int, p3: int, p4: int, p5: int, x: int)
    requires -One <= 2 * (m1 * One - p1) <= One && -One <= 2 * (m2 * One - p2) <= One
    requires -One <= 2 * (m3 * One - p3) <= One && -One <= 2 * (m4 * One - p4) <= One
    requires -One <= 2 * (m5 * One - p5) <= One
    requires p1 + p2 + p3 + p4 + p5 == x * One
    ensures 2 * Abs(m1 + m2 + m3 + m4 + m5 - x) <= 5
  {
    var y := m1 + m2 + m3 + m4 + m5 - x;
    assert -5 * One <= 2 * (y * One) <= 5 * One;
    ScaleDown(y);
  }

  lemma ScaleDown(y: int)
    requires -5 * One <= 2 * (y * One) <= 5 * One
    ensures 2 * Abs(y) <= 5
  {
  }

  /** Adding two distribs adds up their rounding errors. */
  lemma AddNearlyBalanced(a: Distrib, b: Distrib, n: nat, m: nat)
    requires NearlyBalanced(a, n) && NearlyBalanced(b, m)
    ensures NearlyBalanced(AddDistrib(a, b), n + m)
  {
  }

  /**
   * The source supply is its vote parts plus its unstaked part to within
   * two and a half units of the last digit per account, whenever every
   * account's weights add up to one.
   */
  lemma {:induction false} SourceDistribNearlyBalanced(accs: seq<Account>, w: Account -> VoteWeights)
    requires forall a :: a in accs ==> WeightsSumToOne(w(a))
    ensures NearlyBalanced(SourceDistrib(accs, w), |accs|)
  {
    if accs != [] {
      var s, a := accs[..|accs| - 1], accs[|accs| - 1];
      assert forall b :: b in s ==> b in accs;
      SourceDistribNearlyBalanced(s, w);
      ShareSplitsApproximately(a, w(a));
      AddNearlyBalanced(SourceDistrib(s, w), AtomShare(a, w(a)), |s|, 1);
    }
  }

  /** An account whose whole stake follows one vote option splits exactly. */
  lemma SingleOptionSplitsExactly(acc: Account, w: VoteWeights, o: VoteOption)
    requires w(o) == One && forall o' :: o' != o ==> w(o') == 0
    ensures StakeSplitExactly(acc, w)
  {
    MulOne(acc.stakedAmount);
    MulZero(acc.stakedAmount);
  }

  // ---------------------------------------------------------------------
  // Slashed accounts

  /**
   * The first pass counts every account: the source supply is the balance
   * slashed from the ICF accounts plus the source supply of the others.
   */
  lemma {:induction false} SourceSupplySplit(accs: seq<Account>, icf: seq<string>, w: Account -> VoteWeights)
    ensures SourceDistrib(accs, w).supply == IcfSlash(accs, icf) + SourceDistrib(NotSlashed(accs, icf), w).supply
  {
    if accs != [] {
      var s, a := accs[..|accs| - 1], accs[|accs| - 1];
      SourceSupplySplit(s, icf, w);
      if a.address !in icf {
        LastSplit(NotSlashed(s, icf), a);
      } else {
        assert NotSlashed(accs, icf) == NotSlashed(s, icf);
      }
    }
  }

  /**
   * Slashing keeps the order of the accounts: the unslashed accounts of two
   * lists in a row are those of the first followed by those of the second.
   */
  lemma {:induction false} NotSlashedConcat(s: seq<Account>, t: seq<Account>, icf: seq<string>)
    ensures NotSlashed(s + t, icf) == NotSlashed(s, icf) + NotSlashed(t, icf)
  {
    if t == [] {
      assert s + t == s;
    } else {
      var u, a := t[..|t| - 1], t[|t| - 1];
      NotSlashedConcat(s, u, icf);
      var kept := if a.address in icf then [] else [a];
      ConcatLast(s, t);
      assert NotSlashed(s + t, icf) == NotSlashed(s + u, icf) + kept;
      assert NotSlashed(t, icf) == NotSlashed(u, icf) + kept;
      ConcatAssoc(NotSlashed(s, icf), NotSlashed(u, icf), kept);
    }
  }

  lemma ConcatAssoc(x: seq<Account>, y: seq<Account>, z: seq<Account>)
    ensures (x + y) + z == x + (y + z)
  {
  }

  lemma ConcatLast(s: seq<Account>, t: seq<Account>)
    requires t != []
    ensures (s + t)[..|s + t| - 1] == s + t[..|t| - 1] && (s + t)[|s + t| - 1] == t[|t| - 1]
  {
  }

  /**
   * Slashed accounts take no part in the second pass: removing them leaves
   * the result distrib unchanged.
   */
  lemma {:induction false} SlashedAccountsIgnored(accs: seq<Account>, icf: seq<string>, w: Account -> VoteWeights,
                                                 p: DistriParams, nvm: Dec)
    ensures ResultDistrib(accs, icf, w, p, nvm) == ResultDistrib(NotSlashed(accs, icf), icf, w, p, nvm)
  {
    if accs != [] {
      var s, a := accs[..|accs| - 1], accs[|accs| - 1];
      SlashedAccountsIgnored(s, icf, w, p, nvm);
      var ns := NotSlashed(s, icf);
      if a.address !in icf {
        assert NotSlashed(accs, icf) == ns + [a];
        LastSplit(ns, a);
        assert ResultDistrib(ns + [a], icf, w, p, nvm)
          == AddDistrib(ResultDistrib(ns, icf, w, p, nvm), AtoneShare(AccountDetail(a, w(a), p, nvm)));
      } else {
        assert NotSlashed(accs, icf) == ns;
      }
    }
  }

  /** Nor do slashed accounts change the award maps. */
  lemma {:induction false} SlashedAccountsUnlisted(accs: seq<Account>, icf: seq<string>, w: Account -> VoteWeights,
                                                  p: DistriParams, nvm: Dec, prefix: string, convert: Bech32Converter)
    ensures Entries(accs, icf, w, p, nvm, prefix, convert) == Entries(NotSlashed(accs, icf), icf, w, p, nvm, prefix, convert)
  {
    if accs != [] {
      var s, a := accs[..|accs| - 1], accs[|accs| - 1];
      SlashedAccountsUnlisted(s, icf, w, p, nvm, prefix, convert);
      var ns := NotSlashed(s, icf);
      if a.address !in icf {
        assert NotSlashed(accs, icf) == ns + [a];
        LastSplit(ns, a);
      } else {
        assert NotSlashed(accs, icf) == ns;
      }
    }
  }

  // ---------------------------------------------------------------------
  // The award maps

  /**
   * The award maps agree with each other: the same addresses, an amount
   * that is the rounded total of the detail and never zero, and a detail
   * whose six parts add up to its total.
   */
  predicate WellFormedMaps(e: AwardMaps)
  {
    && e.0.Keys == e.1.Keys
    && forall k :: k in e.0 ==> e.0[k] != 0 && e.0[k] == RoundInt(e.1[k].total) && e.1[k].total == DetailSum(e.1[k])
  }

  lemma {:induction false} EntriesWellFormed(accs: seq<Account>, icf: seq<string>, w: Account -> VoteWeights,
                                            p: DistriParams, nvm: Dec, prefix: string, convert: Bech32Converter)
    requires Entries(accs, icf, w, p, nvm, prefix, convert).Success?
    ensures WellFormedMaps(Entries(accs, icf, w, p, nvm, prefix, convert).value)
  {
    if accs != [] {
      EntriesWellFormed(accs[..|accs| - 1], icf, w, p, nvm, prefix, convert);
    }
  }

  /** An account that gets an entry: not slashed, and its award does not round to zero. */
  predicate Awarded(acc: Account, icf: seq<string>, w: Account -> VoteWeights, p: DistriParams, nvm: Dec)
  {
    acc.address !in icf && RoundInt(AccountDetail(acc, w(acc), p, nvm).total) != 0
  }

  /** The keys of the accounts that get an entry. */
  function AwardedKeys(accs: seq<Account>, icf: seq<string>, w: Account -> VoteWeights, p: DistriParams,
                       nvm: Dec, prefix: string, convert: Bech32Converter): set<string>
  {
    set a | a in accs && Awarded(a, icf, w, p, nvm) && AddressKey(a, prefix, convert).Success?
      :: AddressKey(a, prefix, convert).value
  }

  /**
   * The award maps hold exactly the keys of the accounts that are not
   * slashed and whose award does not round to zero.
   */
  lemma {:induction false} EntriesKeys(accs: seq<Account>, icf: seq<string>, w: Account -> VoteWeights,
                                      p: DistriParams, nvm: Dec, prefix: string, convert: Bech32Converter)
    requires Entries(accs, icf, w, p, nvm, prefix, convert).Success?
    ensures Entries(accs, icf, w, p, nvm, prefix, convert).value.0.Keys == AwardedKeys(accs, icf, w, p, nvm, prefix, convert)
  {
    if accs != [] {
      var s, a := accs[..|accs| - 1], accs[|accs| - 1];
      assert accs == s + [a];
      EntriesKeys(s, icf, w, p, nvm, prefix, convert);
      AwardedKeysStep(s, a, icf, w, p, nvm, prefix, convert);
      var e := Entries(s, icf, w, p, nvm, prefix, convert).value;
      EntriesStepKeys(e, a, icf, w, p, nvm, prefix, convert);
      assert Entries(accs, icf, w, p, nvm, prefix, convert) == EntriesStep(e, a, icf, w, p, nvm, prefix, convert);
    }
  }

  /** Every recorded detail is the award of an awarded account recorded under that account's key. */
  predicate DetailOf(k: string, d: AirdropDetail, accs: seq<Account>, icf: seq<string>, w: Account -> VoteWeights,
                     p: DistriParams, nvm: Dec, prefix: string, convert: Bech32Converter)
  {
    exists a :: a in accs && Awarded(a, icf, w, p, nvm) && AddressKey(a, prefix, convert) == Success(k)
      && d == AccountDetail(a, w(a), p, nvm)
  }

  /**
   * The award maps record nothing but awards: under each key lies the
   * detail of an awarded account whose address converts to that key.
   */
  lemma {:induction false} EntriesValues(accs: seq<Account>, icf: seq<string>, w: Account -> VoteWeights,
                                        p: DistriParams, nvm: Dec, prefix: string, convert: Bech32Converter)
    requires Entries(accs, icf, w, p, nvm, prefix, convert).Success?
    ensures var e := Entries(accs, icf, w, p, nvm, prefix, convert).value;
      forall k :: k in e.1 ==> DetailOf(k, e.1[k], accs, icf, w, p, nvm, prefix, convert)
  {
    if accs != [] {
      var s, a := accs[..|accs| - 1], accs[|accs| - 1];
      assert accs == s + [a];
      LastSplit(s, a);
      EntriesValues(s, icf, w, p, nvm, prefix, convert);
      var e := Entries(s, icf, w, p, nvm, prefix, convert).value;
      assert Entries(accs, icf, w, p, nvm, prefix, convert) == EntriesStep(e, a, icf, w, p, nvm, prefix, convert);
      var e' := Entries(accs, icf, w, p, nvm, prefix, convert).value;
      forall k | k in e'.1
        ensures DetailOf(k, e'.1[k], accs, icf, w, p, nvm, prefix, convert)
      {
        if Awarded(a, icf, w, p, nvm) && AddressKey(a, prefix, convert) == Success(k) {
          assert e'.1[k] == AccountDetail(a, w(a), p, nvm);
        } else {
          assert k in e.1 && e'.1[k] == e.1[k];
          var b :| b in s && Awarded(b, icf, w, p, nvm) && AddressKey(b, prefix, convert) == Success(k)
            && e.1[k] == AccountDetail(b, w(b), p, nvm);
          assert b in accs;
        }
      }
    }
  }

  /** When the award maps are built, every awarded account's address could be re-encoded. */
  lemma {:induction false} AwardedAddressesConverted(accs: seq<Account>, icf: seq<string>, w: Account -> VoteWeights,
                                                    p: DistriParams, nvm: Dec, prefix: string, convert: Bech32Converter)
    requires Entries(accs, icf, w, p, nvm, prefix, convert).Success?
    ensures forall a :: a in accs && Awarded(a, icf, w, p, nvm) ==> AddressKey(a, prefix, convert).Success?
  {
    if accs != [] {
      var s, a := accs[..|accs| - 1], accs[|accs| - 1];
      LastOf(accs);
      AwardedAddressesConverted(s, icf, w, p, nvm, prefix, convert);
      EntriesStepKeys(Entries(s, icf, w, p, nvm, prefix, convert).value, a, icf, w, p, nvm, prefix, convert);
    }
  }

  lemma EntriesStepKeys(e: AwardMaps, a: Account, icf: seq<string>, w: Account -> VoteWeights,
                        p: DistriParams, nvm: Dec, prefix: string, convert: Bech32Converter)
    requires EntriesStep(e, a, icf, w, p, nvm, prefix, convert).Success?
    ensures Awarded(a, icf, w, p, nvm) ==> AddressKey(a, prefix, convert).Success?
    ensures EntriesStep(e, a, icf, w, p, nvm, prefix, convert).value.0.Keys
      == e.0.Keys + if Awarded(a, icf, w, p, nvm) then {AddressKey(a, prefix, convert).value} else {}
  {
  }

  lemma AwardedKeysStep(s: seq<Account>, a: Account, icf: seq<string>, w: Account -> VoteWeights,
                        p: DistriParams, nvm: Dec, prefix: string, convert: Bech32Converter)
    ensures AwardedKeys(s + [a], icf, w, p, nvm, prefix, convert)
      == AwardedKeys(s, icf, w, p, nvm, prefix, convert)
         + if Awarded(a, icf, w, p, nvm) && AddressKey(a, prefix, convert).Success?
           then {AddressKey(a, prefix, convert).value} else {}
  {
    LastSplit(s, a);
  }

  /** Without a prefix, no address conversion takes place, so the award maps are always built. */
  lemma {:induction false} UnprefixedEntriesSucceed(accs: seq<Account>, icf: seq<string>, w: Account -> VoteWeights,
                                                   p: DistriParams, nvm: Dec, convert: Bech32Converter)
    ensures Entries(accs, icf, w, p, nvm, "", convert).Success?
  {
    if accs != [] {
      UnprefixedEntriesSucceed(accs[..|accs| - 1], icf, w, p, nvm, convert);
    }
  }

  /**
   * Without a prefix, the award maps are keyed by the addresses of the
   * awarded accounts, so no slashed address ever receives anything.
   */
  lemma SlashedNeverListed(accs: seq<Account>, icf: seq<string>, w: Account -> VoteWeights,
                           p: DistriParams, nvm: Dec, convert: Bech32Converter)
    ensures Entries(accs, icf, w, p, nvm, "", convert).Success?
    ensures var e := Entries(accs, icf, w, p, nvm, "", convert).value;
      && e.0.Keys == (set a | a in accs && Awarded(a, icf, w, p, nvm) :: a.address)
      && forall k :: k in e.0 ==> k !in icf
  {
    UnprefixedEntriesSucceed(accs, icf, w, p, nvm, convert);
    EntriesKeys(accs, icf, w, p, nvm, "", convert);
    var e := Entries(accs, icf, w, p, nvm, "", convert).value;
    assert AwardedKeys(accs, icf, w, p, nvm, "", convert) == (set a | a in accs && Awarded(a, icf, w, p, nvm) :: a.address);
  }

  /** Once an address conversion fails, the failure is the result of the whole list. */
  lemma {:induction false} EntriesFailurePropagates(accs: seq<Account>, k: nat, icf: seq<string>, w: Account -> VoteWeights,
                                                   p: DistriParams, nvm: Dec, prefix: string, convert: Bech32Converter)
    requires k <= |accs|
    requires Entries(accs[..k], icf, w, p, nvm, prefix, convert).Failure?
    ensures Entries(accs, icf, w, p, nvm, prefix, convert) == Entries(accs[..k], icf, w, p, nvm, prefix, convert)
    decreases |accs| - k
  {
    if k < |accs| {
      var s := accs[..|accs| - 1];
      assert s[..k] == accs[..k];
      EntriesFailurePropagates(s, k, icf, w, p, nvm, prefix, convert);
    } else {
      assert accs[..k] == accs;
    }
  }

  // ---------------------------------------------------------------------
  // The minted amount

  /** The community pool and the reserved address each get half of the minted amount, to within one unit. */
  lemma MintedSplitEvenly(supply: Dec, p: DistriParams)
    ensures Abs(2 * MintedHalf(supply, p) - Mul(supply, p.supplyMintFactor)) <= 1
  {
    var m := Mul(supply, p.supplyMintFactor);
    var h := Quo(m, NewDec(2));
    QuoRounding(m, NewDec(2));
    assert 2 * Abs(h * (2 * One) - m * One) * One <= (2 * One) * (One + 2);
    assert h * (2 * One) - m * One == (2 * h - m) * One;
    AbsMul(2 * h - m, One);
    assert Abs(2 * h - m) * One <= One + 2;
  }

  // ---------------------------------------------------------------------
  // The whole distribution

  /** The parts of a successful distribution. */
  lemma SuccessParts(accounts: seq<Account>, params: DistriParams, prefix: string, icf: seq<string>,
                     w: Account -> VoteWeights, convert: Bech32Converter)
    returns (nvm: Dec)
    requires SpecDistribution(accounts, params, prefix, icf, w, convert).Success?
    ensures NonVotersMultiplier(SourceDistrib(accounts, w), params) == Some(nvm)
    ensures Entries(accounts, icf, w, params, nvm, prefix, convert).Success?
    ensures var e, a := Entries(accounts, icf, w, params, nvm, prefix, convert).value,
                        SpecDistribution(accounts, params, prefix, icf, w, convert).value;
      && a.addresses == e.0 && a.addressesDetail == e.1
      && a.atom == SourceDistrib(accounts, w)
      && a.atone == ResultDistrib(accounts, icf, w, params, nvm)
      && a.icfSlash == IcfSlash(accounts, icf)
      && a.communityPool == MintedHalf(a.atone.supply, params) == a.reservedAddr
  {
    nvm := NonVotersMultiplier(SourceDistrib(accounts, w), params).value;
  }

  /** A distribution panics on the division exactly when the non-voter divisor is zero. */
  lemma DistributionPanicsOnZeroDivisor(accounts: seq<Account>, params: DistriParams, prefix: string, icf: seq<string>,
                                        w: Account -> VoteWeights, convert: Bech32Converter)
    ensures SpecDistribution(accounts, params, prefix, icf, w, convert) == Failure(QuoByZeroPanic)
      <==> NonVoterDivisor(SourceDistrib(accounts, w)) == 0
  {
    var atom := SourceDistrib(accounts, w);
    if NonVotersMultiplier(atom, params).Some? {
      var nvm := NonVotersMultiplier(atom, params).value;
      EntriesFailsOnAddress(accounts, icf, w, params, nvm, prefix, convert);
      var e := Entries(accounts, icf, w, params, nvm, prefix, convert);
      assert e.Failure? ==> SpecDistribution(accounts, params, prefix, icf, w, convert) == Failure(e.error);
    }
  }

  /** Only a distribution that re-encodes addresses can fail on an address. */
  lemma DistributionFailsOnlyOnPrefix(accounts: seq<Account>, params: DistriParams, prefix: string, icf: seq<string>,
                                      w: Account -> VoteWeights, convert: Bech32Converter)
    requires prefix == ""
    ensures SpecDistribution(accounts, params, prefix, icf, w, convert).Failure? ==>
      SpecDistribution(accounts, params, prefix, icf, w, convert) == Failure(QuoByZeroPanic)
    ensures SpecDistribution(accounts, params, prefix, icf, w, convert).Success? ==>
      forall k :: k in SpecDistribution(accounts, params, prefix, icf, w, convert).value.addresses ==> k !in icf
  {
    var atom := SourceDistrib(accounts, w);
    if NonVotersMultiplier(atom, params).Some? {
      var nvm := NonVotersMultiplier(atom, params).value;
      UnprefixedEntriesSucceed(accounts, icf, w, params, nvm, convert);
      SlashedNeverListed(accounts, icf, w, params, nvm, convert);
    }
  }

  /** A successful distribution has a balanced result distrib and well-formed award maps. */
  lemma DistributionBalanced(accounts: seq<Account>, params: DistriParams, prefix: string, icf: seq<string>,
                             w: Account -> VoteWeights, convert: Bech32Converter)
    requires SpecDistribution(accounts, params, prefix, icf, w, convert).Success?
    ensures var a := SpecDistribution(accounts, params, prefix, icf, w, convert).value;
      Balanced(a.atone) && WellFormedMaps((a.addresses, a.addressesDetail))
  {
    var nvm := SuccessParts(accounts, params, prefix, icf, w, convert);
    ResultDistribBalanced(accounts, icf, w, params, nvm);
    EntriesWellFormed(accounts, icf, w, params, nvm, prefix, convert);
  }

  /**
   * A successful distribution gives the community pool and the reserved
   * address the same amount, half the minted amount to within one unit.
   */
  lemma DistributionMintSplit(accounts: seq<Account>, params: DistriParams, prefix: string, icf: seq<string>,
                              w: Account -> VoteWeights, convert: Bech32Converter)
    requires SpecDistribution(accounts, params, prefix, icf, w, convert).Success?
    ensures var a := SpecDistribution(accounts, params, prefix, icf, w, convert).value;
      a.communityPool == a.reservedAddr && Abs(2 * a.communityPool - Mul(a.atone.supply, params.supplyMintFactor)) <= 1
  {
    var nvm := SuccessParts(accounts, params, prefix, icf, w, convert);
    MintedSplitEvenly(ResultDistrib(accounts, icf, w, params, nvm).supply, params);
  }

  /**
   * In a successful distribution the source supply is the slashed amount plus
   * the supply of the accounts that were not slashed.
   */
  lemma DistributionSlashAccounted(accounts: seq<Account>, params: DistriParams, prefix: string, icf: seq<string>,
                                   w: Account -> VoteWeights, convert: Bech32Converter)
    requires SpecDistribution(accounts, params, prefix, icf, w, convert).Success?
    ensures var a := SpecDistribution(accounts, params, prefix, icf, w, convert).value;
      a.atom.supply == a.icfSlash + SourceDistrib(NotSlashed(accounts, icf), w).supply
  {
    var nvm := SuccessParts(accounts, params, prefix, icf, w, convert);
    SourceSupplySplit(accounts, icf, w);
  }

  /** The award maps can only fail on an address conversion. */
  lemma {:induction false} EntriesFailsOnAddress(accs: seq<Account>, icf: seq<string>, w: Account -> VoteWeights,
                                                p: DistriParams, nvm: Dec, prefix: string, convert: Bech32Converter)
    ensures Entries(accs, icf, w, p, nvm, prefix, convert).Failure? ==>
      Entries(accs, icf, w, p, nvm, prefix, convert).error.Bech32Error?
  {
    if accs != [] {
      var s := accs[..|accs| - 1];
      EntriesFailsOnAddress(s, icf, w, p, nvm, prefix, convert);
      match Entries(s, icf, w, p, nvm, prefix, convert)
      case Failure(_) =>
      case Success(e) =>
        assert Entries(accs, icf, w, p, nvm, prefix, convert) == EntriesStep(e, accs[|accs| - 1], icf, w, p, nvm, prefix, convert);
    }
  }

  // ---------------------------------------------------------------------
  // The non-voter multiplier

  /**
   * The multiplier solves `m * (1 - t) * nonVoters = t * voters` to within
   * the rounding of one decimal division.
   */
  lemma NonVotersMultiplierSolves(atom: Distrib, p: DistriParams)
    requires NonVotersMultiplier(atom, p).Some?
    ensures var m, den := NonVotersMultiplier(atom, p).value, NonVoterDivisor(atom);
      2 * Abs(m * den - Mul(TargetNonVotersPerc, VoterWeightedAmount(atom, p)) * One) * One <= Abs(den) * (One + 2)
  {
    QuoRounding(Mul(TargetNonVotersPerc, VoterWeightedAmount(atom, p)), NonVoterDivisor(atom));
  }

  /**
   * The non-voter multiplier with exact arithmetic: `t * V / ((1 - t) * P)`
   * for the target share `t`, the weighted voter amount `V` and the
   * non-voter amount `P`.
   */
  function IdealNonVotersMultiplier(t: real, voters: real, nonVoters: real): (m: real)
    requires 0.0 < t < 1.0 && voters >= 0.0 && nonVoters > 0.0
    ensures m >= 0.0 && m * ((1.0 - t) * nonVoters) == t * voters
  {
    PositiveProduct(1.0 - t, nonVoters);
    t * voters / ((1.0 - t) * nonVoters)
  }

  lemma PositiveProduct(x: real, y: real)
    requires x > 0.0 && y > 0.0
    ensures x * y > 0.0
  {
  }

  /**
   * With exact arithmetic, and with the multiplier computed from the same
   * amounts that are then awarded, the non-voters' share of the awarded
   * supply is at most `t`: the bonus raises the voters' part and the malus
   * lowers the non-voters'; without bonus and malus the share is exactly `t`.
   * The code computes the multiplier over every account, slashed wallets
   * included, but awards only accounts that are not slashed, so for the
   * result supply this applies when no slashed account holds any stake; a
   * slashed account holding voted stake can break the bound
   * (`SlashedVoterBreaksTarget`).
   */
  lemma NonVoterShareAtMostTarget(yes: real, no: real, nwv: real, abs: real, dnv: real, liquid: real,
                                  yesMult: real, noMult: real, bonus: real, malus: real, factor: real, t: real)
    requires yes >= 0.0 && no >= 0.0 && nwv >= 0.0 && abs >= 0.0 && dnv >= 0.0 && liquid >= 0.0
    requires yesMult >= 0.0 && noMult >= 0.0 && factor >= 0.0 && 0.0 < t < 1.0
    requires bonus >= 1.0 && 0.0 <= malus <= 1.0
    requires abs + dnv + liquid > 0.0
    ensures
      var m := IdealNonVotersMultiplier(t, yes * yesMult + (no + nwv) * noMult, abs + dnv + liquid);
      var nonVoters := abs * m * factor + dnv * m * malus * factor + liquid * (m * malus) * factor;
      var voters := yes * yesMult * factor + no * noMult * factor + nwv * noMult * bonus * factor;
      && nonVoters <= t * (nonVoters + voters)
      && (bonus == 1.0 && malus == 1.0 ==> nonVoters == t * (nonVoters + voters))
  {
    var V := yes * yesMult + (no + nwv) * noMult;
    NonNegativeProducts(yes, yesMult, no + nwv, noMult);
    var P := abs + dnv + liquid;
    var m := IdealNonVotersMultiplier(t, V, P);
    var nonVoters := abs * m * factor + dnv * m * malus * factor + liquid * (m * malus) * factor;
    var voters := yes * yesMult * factor + no * noMult * factor + nwv * noMult * bonus * factor;
    var mf := m * factor;
    NonNegativeProducts(m, factor, 0.0, 0.0);
    var weighted := abs + malus * (dnv + liquid);
    NonVotersFactor(abs, dnv, liquid, m, malus, factor);
    assert nonVoters == mf * weighted;
    WeightedAtMostPool(abs, dnv, liquid, malus);
    ScaleLe(weighted, P, mf);
    var extra := nwv * noMult * (bonus - 1.0) * factor;
    VotersFactor(yes, no, nwv, yesMult, noMult, bonus, factor);
    assert voters == factor * V + extra;
    NonNegativeProducts(nwv * noMult, bonus - 1.0, 0.0, 0.0);
    NonNegativeProducts(nwv * noMult * (bonus - 1.0), factor, 0.0, 0.0);
    ShareBound(nonVoters, voters, mf * P, factor * V, t, m, P, factor, V);
    if bonus == 1.0 && malus == 1.0 {
      assert weighted == P;
      assert extra == 0.0;
    }
  }

  lemma NonNegativeProducts(a: real, b: real, c: real, d: real)
    requires a >= 0.0 && b >= 0.0 && c >= 0.0 && d >= 0.0
    ensures a * b + c * d >= 0.0 && a * b >= 0.0
  {
  }

  lemma NonVotersFactor(abs: real, dnv: real, liquid: real, m: real, malus: real, factor: real)
    ensures abs * m * factor + dnv * m * malus * factor + liquid * (m * malus) * factor
            == (m * factor) * (abs + malus * (dnv + liquid))
  {
  }

  lemma VotersFactor(yes: real, no: real, nwv: real, yesMult: real, noMult: real, bonus: real, factor: real)
    ensures yes * yesMult * factor + no * noMult * factor + nwv * noMult * bonus * factor
            == factor * (yes * yesMult + (no + nwv) * noMult) + nwv * noMult * (bonus - 1.0) * factor
  {
  }

  lemma WeightedAtMostPool(abs: real, dnv: real, liquid: real, malus: real)
    requires dnv >= 0.0 && liquid >= 0.0 && malus <= 1.0
    ensures abs + malus * (dnv + liquid) <= abs + dnv + liquid
  {
    assert (1.0 - malus) * (dnv + liquid) >= 0.0;
  }

  lemma LeChain(a: real, b: real, c: real, d: real)
    requires a <= b && b == c && c <= d
    ensures a <= d
  {
  }

  lemma ScaleLe(x: real, y: real, k: real)
    requires x <= y && k >= 0.0
    ensures k * x <= k * y
  {
    assert k * y - k * x == k * (y - x);
  }

  /** The final step: `(1 - t) * N <= (1 - t) * mf * P = t * V * f <= t * voters`. */
  lemma ShareBound(nonVoters: real, voters: real, cap: real, base: real, t: real, m: real, P: real, factor: real, V: real)
    requires 0.0 < t < 1.0
    requires nonVoters <= cap && base <= voters
    requires cap == m * factor * P && base == factor * V
    requires m * ((1.0 - t) * P) == t * V
    ensures nonVoters <= t * (nonVoters + voters)
    ensures nonVoters == cap && voters == base ==> nonVoters == t * (nonVoters + voters)
  {
    assert (1.0 - t) * cap == factor * (m * ((1.0 - t) * P));
    assert factor * (t * V) == t * base;
    assert (1.0 - t) * cap == t * base;
    var k := 1.0 - t;
    ScaleLe(nonVoters, cap, k);
    assert k * nonVoters <= k * cap;
    ScaleLe(base, voters, t);
    assert t * base <= t * voters;
    assert k * cap == t * base;
    LeChain(k * nonVoters, k * cap, t * base, t * voters);
    assert (1.0 - t) * nonVoters == nonVoters - t * nonVoters;
    assert t * (nonVoters + voters) == t * nonVoters + t * voters;
  }

  // ---------------------------------------------------------------------
  // Concrete cases

  /**
   * The audit line of the liquid amount does not always reproduce its
   * amount: the amount multiplies by the rounded product of the multiplier
   * and the malus, while the line records the two separately.
   */
  lemma LiquidDetailMayNotReproduce()
    ensures
      var acc := Account("cosmos1", 0, NewDec(9), [], []);
      var d := AccountDetail(acc, o => 0, DefaultDistriParams(), 492_537_313_432_835_821);
      && d.liquidDetail.atoneAmt == 429_985_074_626_865_671
      && Mul(Mul(Mul(d.liquidDetail.atomAmt, d.liquidDetail.multiplier), d.liquidDetail.bonusMalus), d.liquidDetail.factor)
         == 429_985_074_626_865_672
      && !Reproduces(d.liquidDetail)
  {
    var p := DefaultDistriParams();
    var nvm := 492_537_313_432_835_821;
    assert p.malus == 970_000_000_000_000_000;
    assert p.supplyFactor == 100_000_000_000_000_000;
    assert Mul(nvm, p.malus) == 477_761_194_029_850_746;
    assert Mul(NewDec(9), 477_761_194_029_850_746) == 4_299_850_746_268_656_714;
    assert Mul(4_299_850_746_268_656_714, p.supplyFactor) == 429_985_074_626_865_671;
    assert Mul(NewDec(9), nvm) == 4_432_835_820_895_522_389;
    assert Mul(4_432_835_820_895_522_389, p.malus) == 4_299_850_746_268_656_717;
    assert Mul(4_299_850_746_268_656_717, p.supplyFactor) == 429_985_074_626_865_672;
  }

  /** With the default parameters, a result supply of 900 mints a little less than 100, split evenly. */
  lemma MintScenario()
    ensures MintedHalf(NewDec(900), DefaultDistriParams()) == 49_999_999_999_999_999_950
    ensures MintedHalf(NewDec(900), DefaultDistriParams()) < NewDec(50)
  {
  }

  /** A slashed wallet staking 100, then an account that is not slashed staking 100. */
  function SlashedVoterAccounts(): seq<Account>
  {
    [Account(IcfWallets[0], NewDec(100), 0, [], []), Account("cosmos1other", NewDec(100), 0, [], [])]
  }

  /** The weights of a vote that puts the whole stake on one option. */
  function SingleOption(o: VoteOption): VoteWeights
  {
    x => if x == o then One else 0
  }

  /** The slashed wallet votes Yes with its whole stake; every other account abstains. */
  function SlashedVoterWeights(acc: Account): VoteWeights
  {
    if acc.address == IcfWallets[0] then SingleOption(Yes) else SingleOption(Abstain)
  }

  lemma SingleOptionShare(acc: Account, o: VoteOption)
    ensures forall x :: AtomShare(acc, SingleOption(o)).votes[x] == if x == o then acc.stakedAmount else 0
    ensures AtomShare(acc, SingleOption(o)).unstaked == acc.liquidAmount
  {
    MulOne(acc.stakedAmount);
    MulZero(acc.stakedAmount);
  }

  lemma SourceSingle(a0: Account, w: Account -> VoteWeights, o: VoteOption)
    ensures var d, s0 := SourceDistrib([a0], w), AtomShare(a0, w(a0));
      d.unstaked == s0.unstaked && d.votes[o] == s0.votes[o]
  {
    assert [a0][..0] == [];
  }

  /** The first pass over two accounts, for one vote option and the unstaked part. */
  lemma SourcePair(a0: Account, a1: Account, w: Account -> VoteWeights, o: VoteOption)
    ensures var d, s0, s1 := SourceDistrib([a0, a1], w), AtomShare(a0, w(a0)), AtomShare(a1, w(a1));
      d.votes[o] == s0.votes[o] + s1.votes[o] && d.unstaked == s0.unstaked + s1.unstaked
  {
    SourceSingle(a0, w, o);
    assert [a0, a1][..1] == [a0];
  }

  /**
   * The scenario: a first account staking 100 with its whole stake on Yes,
   * then a second staking 100 with its whole stake on Abstain, neither
   * holding liquid tokens.
   */
  ghost predicate YesThenAbstain(a0: Account, a1: Account, w: Account -> VoteWeights)
  {
    && a0.stakedAmount == NewDec(100) && a0.liquidAmount == 0 && w(a0) == SingleOption(Yes)
    && a1.stakedAmount == NewDec(100) && a1.liquidAmount == 0 && w(a1) == SingleOption(Abstain)
  }

  lemma YesThenAbstainSource(a0: Account, a1: Account, w: Account -> VoteWeights)
    requires YesThenAbstain(a0, a1, w)
    ensures var atom := SourceDistrib([a0, a1], w);
      && atom.votes[Yes] == NewDec(100) && atom.votes[No] == 0 && atom.votes[NoWithVeto] == 0
      && atom.votes[Abstain] == NewDec(100) && atom.votes[Empty] == 0 && atom.unstaked == 0
  {
    YesThenAbstainVote(a0, a1, w, Yes);
    YesThenAbstainVote(a0, a1, w, No);
    YesThenAbstainVote(a0, a1, w, NoWithVeto);
    YesThenAbstainVote(a0, a1, w, Abstain);
    YesThenAbstainVote(a0, a1, w, Empty);
  }

  lemma YesThenAbstainVote(a0: Account, a1: Account, w: Account -> VoteWeights, o: VoteOption)
    requires YesThenAbstain(a0, a1, w)
    ensures var atom := SourceDistrib([a0, a1], w);
      atom.votes[o] == (if o == Yes || o == Abstain then NewDec(100) else 0) && atom.unstaked == 0
  {
    SingleOptionShare(a0, Yes);
    SingleOptionShare(a1, Abstain);
    SourcePair(a0, a1, w, o);
  }

  lemma TargetValue()
    ensures TargetNonVotersPerc == 330_000_000_000_000_000
  {
    assert Pow10(2) == 100;
  }

  /** The decimal products and the quotient of the scenario, with default parameters. */
  lemma SlashedVoterArithmetic()
    ensures Mul(One - 330_000_000_000_000_000, NewDec(100)) == NewDec(67)
    ensures Mul(330_000_000_000_000_000, NewDec(100)) == NewDec(33)
    ensures Quo(NewDec(33), NewDec(67)) == 492_537_313_432_835_821
  {
  }

  /** Both totals of the multiplier count the first account's Yes stake. */
  lemma YesThenAbstainMultiplier(a0: Account, a1: Account, w: Account -> VoteWeights)
    requires YesThenAbstain(a0, a1, w)
    ensures NonVotersMultiplier(SourceDistrib([a0, a1], w), DefaultDistriParams()) == Some(492_537_313_432_835_821)
  {
    var atom := SourceDistrib([a0, a1], w);
    var p := DefaultDistriParams();
    YesThenAbstainSource(a0, a1, w);
    YesVotersOnly(atom, p);
    TargetValue();
    SlashedVoterArithmetic();
  }

  /** With a Yes multiplier of one and no No or NoWithVeto stake, the weighted voter amount is the Yes stake. */
  lemma YesVotersOnly(atom: Distrib, p: DistriParams)
    requires p.yesVotesMultiplier == One && atom.votes[No] == 0 && atom.votes[NoWithVeto] == 0
    ensures VoterWeightedAmount(atom, p) == atom.votes[Yes]
  {
    MulOne(atom.votes[Yes]);
    MulZero(p.noVotesMultiplier);
  }

  /** The award of the abstaining account: its whole stake, weighted by the multiplier, in the Abstain bucket. */
  lemma AbstainerDetail(acc: Account)
    requires acc.stakedAmount == NewDec(100) && acc.liquidAmount == 0
    ensures var d := AccountDetail(acc, SingleOption(Abstain), DefaultDistriParams(), 492_537_313_432_835_821);
      && d.absDetail.atoneAmt == 4_925_373_134_328_358_210
      && d.yesDetail.atoneAmt == 0 && d.noDetail.atoneAmt == 0 && d.nwvDetail.atoneAmt == 0
      && d.dnvDetail.atoneAmt == 0 && d.liquidDetail.atoneAmt == 0
  {
    var p, nvm := DefaultDistriParams(), 492_537_313_432_835_821;
    var d := AccountDetail(acc, SingleOption(Abstain), p, nvm);
    assert d.absDetail.atoneAmt == 4_925_373_134_328_358_210 by {
      MulOne(NewDec(100));
      assert Mul(NewDec(100), nvm) == 49_253_731_343_283_582_100;
      assert Mul(49_253_731_343_283_582_100, p.supplyFactor) == 4_925_373_134_328_358_210;
    }
    assert d.yesDetail.atoneAmt == 0 && d.noDetail.atoneAmt == 0 && d.nwvDetail.atoneAmt == 0 by {
      MulZero(NewDec(100));
      MulZero(p.yesVotesMultiplier);
      MulZero(p.noVotesMultiplier);
      MulZero(p.bonus);
      MulZero(p.supplyFactor);
    }
    assert d.dnvDetail.atoneAmt == 0 && d.liquidDetail.atoneAmt == 0 by {
      MulZero(NewDec(100));
      MulZero(nvm);
      MulZero(p.malus);
      MulZero(Mul(nvm, p.malus));
      MulZero(p.supplyFactor);
    }
  }

  /** The second pass over a slashed account followed by one that is not slashed, for one vote option and the totals. */
  lemma ResultPair(a0: Account, a1: Account, icf: seq<string>, w: Account -> VoteWeights, p: DistriParams, nvm: Dec,
                   o: VoteOption)
    requires a0.address in icf && a1.address !in icf
    ensures var d, s1 := ResultDistrib([a0, a1], icf, w, p, nvm), AtoneShare(AccountDetail(a1, w(a1), p, nvm));
      d.supply == s1.supply && d.unstaked == s1.unstaked && d.votes[o] == s1.votes[o]
  {
    ResultSingle(a0, icf, w, p, nvm, o);
    assert [a0, a1][..1] == [a0];
  }

  lemma ResultSingle(a0: Account, icf: seq<string>, w: Account -> VoteWeights, p: DistriParams, nvm: Dec, o: VoteOption)
    requires a0.address in icf
    ensures var d := ResultDistrib([a0], icf, w, p, nvm);
      d.supply == 0 && d.unstaked == 0 && d.votes[o] == 0
  {
    assert [a0][..0] == [];
  }

  /** The award of the abstaining account, as a share of the result supply. */
  lemma AbstainerShare(acc: Account)
    requires acc.stakedAmount == NewDec(100) && acc.liquidAmount == 0
    ensures var s := AtoneShare(AccountDetail(acc, SingleOption(Abstain), DefaultDistriParams(), 492_537_313_432_835_821));
      && s.supply == 4_925_373_134_328_358_210 && s.votes[Abstain] == 4_925_373_134_328_358_210
      && s.votes[Empty] == 0 && s.unstaked == 0
  {
    AbstainerDetail(acc);
  }

  /** The second pass skips the slashed first account and awards the abstaining stake alone. */
  lemma YesThenAbstainResult(a0: Account, a1: Account, icf: seq<string>, w: Account -> VoteWeights)
    requires YesThenAbstain(a0, a1, w) && a0.address in icf && a1.address !in icf
    ensures var atone := ResultDistrib([a0, a1], icf, w, DefaultDistriParams(), 492_537_313_432_835_821);
      atone.supply == 4_925_373_134_328_358_210 && NonVoterPart(atone) == atone.supply
  {
    var p, nvm := DefaultDistriParams(), 492_537_313_432_835_821;
    var atone := ResultDistrib([a0, a1], icf, w, p, nvm);
    assert atone.supply == 4_925_373_134_328_358_210 && atone.votes[Abstain] == 4_925_373_134_328_358_210
      && atone.votes[Empty] == 0 && atone.unstaked == 0 by {
      var s1 := AtoneShare(AccountDetail(a1, w(a1), p, nvm));
      assert s1.supply == 4_925_373_134_328_358_210 && s1.votes[Abstain] == 4_925_373_134_328_358_210
        && s1.votes[Empty] == 0 && s1.unstaked == 0 by {
        AbstainerShare(a1);
      }
      ResultPair(a0, a1, icf, w, p, nvm, Abstain);
      ResultPair(a0, a1, icf, w, p, nvm, Empty);
    }
  }

  /** The whole run over a slashed Yes voter followed by an abstainer, without an address prefix. */
  lemma YesThenAbstainDistribution(a0: Account, a1: Account, icf: seq<string>, w: Account -> VoteWeights,
                                   convert: Bech32Converter)
    requires YesThenAbstain(a0, a1, w) && a0.address in icf && a1.address !in icf
    ensures var r := SpecDistribution([a0, a1], DefaultDistriParams(), "", icf, w, convert);
      && r.Success?
      && r.value.nonVotersMultiplier == 492_537_313_432_835_821
      && r.value.atone.supply == 4_925_373_134_328_358_210
      && NonVoterPart(r.value.atone) == r.value.atone.supply
  {
    YesThenAbstainMultiplier(a0, a1, w);
    YesThenAbstainResult(a0, a1, icf, w);
    UnprefixedEntriesSucceed([a0, a1], icf, w, DefaultDistriParams(), 492_537_313_432_835_821, convert);
  }

  /**
   * The multiplier does not keep the non-voters at 33% of the result supply
   * when a slashed wallet voted: the first pass counts the wallet's Yes
   * stake among the voters, the second pass drops it, and every award left
   * goes to a non-voter.
   */
  lemma SlashedVoterBreaksTarget(convert: Bech32Converter)
    ensures var r := SpecDistribution(SlashedVoterAccounts(), DefaultDistriParams(), "", IcfWallets, SlashedVoterWeights, convert);
      && r.Success?
      && r.value.nonVotersMultiplier == 492_537_313_432_835_821
      && r.value.atone.supply > 0
      && NonVoterPart(r.value.atone) == r.value.atone.supply
  {
    var a0, a1 := Account(IcfWallets[0], NewDec(100), 0, [], []), Account("cosmos1other", NewDec(100), 0, [], []);
    assert a1.address !in IcfWallets by {
      assert forall k :: 0 <= k < |IcfWallets| ==> |IcfWallets[k]| != |a1.address|;
    }
    assert YesThenAbstain(a0, a1, SlashedVoterWeights);
    YesThenAbstainDistribution(a0, a1, IcfWallets, SlashedVoterWeights, convert);
  }
}
