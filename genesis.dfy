/**
 * The bank genesis of the governance chain: one balance per account of the
 * source chain, worth the account's stake weighted by its vote (or, for an
 * account that did not vote, by the votes of the validators it delegates
 * to), under the account's address re-encoded with the `govgen` prefix.
 */
module Genesis {
  import opened Results
  import opened Decimal
  import opened Accounts

  /** The ticker of the new chain's token. */
  const Ticker: string := "govgen"

  /** The base denomination, one millionth of a token. */
  const BaseDenom: string := "u" + Ticker

  datatype Coin = Coin(denom: string, amount: int)

  /** A bank balance: an address and its coins, zero coins left out. */
  datatype Balance = Balance(address: string, coins: seq<Coin>)

  /**
   * Why a bank genesis cannot be written: an address that cannot be
   * re-encoded, a balance whose integer part does not fit in 64 bits, or a
   * negative balance, which the coin constructor refuses.
   */
  datatype GenesisError = Bech32Error(msg: string) | Int64Panic | NegativeCoinPanic

  // ---------------------------------------------------------------------
  // Weighting a stake by a vote

  /** The sum of `amount * weight` over the options of a weighted vote, each product rounded. */
  function WeightedSum(vote: seq<WeightedVoteOption>, amount: Dec): Dec
  {
    if vote == [] then 0
    else WeightedSum(vote[..|vote| - 1], amount) + Mul(amount, vote[|vote| - 1].weight)
  }

  /** The total weight of a weighted vote. */
  function TotalWeight(vote: seq<WeightedVoteOption>): Dec
  {
    if vote == [] then 0 else TotalWeight(vote[..|vote| - 1]) + vote[|vote| - 1].weight
  }

  /** `applyVoteOptions`: the amount weighted by each option of the vote, summed. */
  method ApplyVoteOptions(vote: seq<WeightedVoteOption>, amount: Dec) returns (balance: Dec)
    ensures balance == WeightedSum(vote, amount)
    ensures vote == [] ==> balance == 0
  {
    balance := 0;
    for i := 0 to |vote|
      invariant balance == WeightedSum(vote[..i], amount)
    {
      var option := vote[i];
      var subPower := Mul(amount, option.weight);
      // the option itself changes nothing: each counts with its weight alone
      assert vote[..i + 1][..i] == vote[..i];
      balance := balance + subPower;
    }
    assert vote[..|vote|] == vote;
  }

  /** The options of a vote play no part: two votes with the same weights give the same balance. */
  lemma {:induction false} OptionsIgnored(v1: seq<WeightedVoteOption>, v2: seq<WeightedVoteOption>, amount: Dec)
    requires |v1| == |v2| && forall i :: 0 <= i < |v1| ==> v1[i].weight == v2[i].weight
    ensures WeightedSum(v1, amount) == WeightedSum(v2, amount)
  {
    if v1 != [] {
      OptionsIgnored(v1[..|v1| - 1], v2[..|v2| - 1], amount);
    }
  }

  /** A nonnegative amount weighted by nonnegative weights is nonnegative. */
  lemma {:induction false} WeightedSumNonNegative(vote: seq<WeightedVoteOption>, amount: Dec)
    requires amount >= 0 && forall i :: 0 <= i < |vote| ==> vote[i].weight >= 0
    ensures WeightedSum(vote, amount) >= 0
  {
    if vote != [] {
      WeightedSumNonNegative(vote[..|vote| - 1], amount);
    }
  }

  /**
   * The weighted balance is the exact `amount * totalWeight` to within half a
   * unit of the last digit per option; for a vote whose weights add up to 1
   * that is the staked amount itself.
   */
  lemma {:induction false} WeightedSumRounding(vote: seq<WeightedVoteOption>, amount: Dec)
    ensures 2 * Abs(WeightedSum(vote, amount) * One - amount * TotalWeight(vote)) <= |vote| * One
  {
    if vote != [] {
      var init, last := vote[..|vote| - 1], vote[|vote| - 1];
      WeightedSumRounding(init, amount);
      MulRounding(amount, last.weight);
      var s, m := WeightedSum(init, amount), Mul(amount, last.weight);
      var t := TotalWeight(init);
      SumProducts(s, m, One);
      SumProducts(t, last.weight, amount);
      Triangle(s * One - amount * t, m * One - amount * last.weight);
      SumProducts(|init|, 1, One);
    }
  }

  lemma SumProducts(a: int, b: int, c: int)
    ensures (a + b) * c == a * c + b * c && c * (a + b) == c * a + c * b
  {
  }

  lemma Triangle(x: int, y: int)
    ensures Abs(x + y) <= Abs(x) + Abs(y)
  {
  }

  // ---------------------------------------------------------------------
  // Balances

  /** The balance of the vote of each delegation, summed (the inherited votes). */
  function DelegatedBalance(delegations: seq<Delegation>): Dec
  {
    if delegations == [] then 0
    else
      var d := delegations[|delegations| - 1];
      DelegatedBalance(delegations[..|delegations| - 1]) + WeightedSum(d.vote, d.amount)
  }

  /** An account's balance: its direct vote if it voted, otherwise the votes it inherits. */
  function AccountBalance(a: Account): Dec
  {
    if |a.vote| > 0 then WeightedSum(a.vote, a.stakedAmount) else DelegatedBalance(a.delegations)
  }

  /**
   * An account that voted keeps its direct vote whatever its delegations; one
   * that did not inherits the votes of its delegations, which is nothing when
   * it has none.
   */
  lemma BalanceSelection(a: Account, delegations: seq<Delegation>)
    ensures |a.vote| > 0 ==> AccountBalance(a.(delegations := delegations)) == WeightedSum(a.vote, a.stakedAmount)
    ensures |a.vote| == 0 ==> AccountBalance(a) == DelegatedBalance(a.delegations)
    ensures |a.vote| == 0 && a.delegations == [] ==> AccountBalance(a) == 0
  {
  }

  /** The coins of a balance: the amount in the base denomination, or none for a zero amount. */
  function Coins(amount: int): (r: seq<Coin>)
    ensures amount == 0 <==> r == []
    ensures r != [] ==> r == [Coin(BaseDenom, amount)]
  {
    if amount == 0 then [] else [Coin(BaseDenom, amount)]
  }

  /** The balance entry of one account, or the first error its entry meets. */
  function BalanceEntry(a: Account, convert: Bech32Converter): Result<Balance, GenesisError>
  {
    match convert(a.address, "cosmos", Ticker)
    case Failure(msg) => Failure(Bech32Error(msg))
    case Success(addr) =>
      match TruncateInt64(AccountBalance(a))
      case None => Failure(Int64Panic)
      case Some(n) => if n < 0 then Failure(NegativeCoinPanic) else Success(Balance(addr, Coins(n)))
  }

  /** What an account's entry holds when it is written. */
  lemma BalanceEntryContents(a: Account, convert: Bech32Converter)
    ensures BalanceEntry(a, convert).Success? <==>
      && convert(a.address, "cosmos", Ticker).Success?
      && TruncateInt64(AccountBalance(a)).Some?
      && TruncateInt64(AccountBalance(a)).value >= 0
    ensures BalanceEntry(a, convert).Success? ==>
      var b := BalanceEntry(a, convert).value;
      && b.address == convert(a.address, "cosmos", Ticker).value
      && var n := TruncateInt64(AccountBalance(a)).value;
      && Abs(AccountBalance(a) - n * One) < One
      && (n == 0 ==> b.coins == [])
      && (n != 0 ==> b.coins == [Coin(BaseDenom, n)])
  {
  }

  /** The balances of a list of accounts, in order, or the error of the first account whose entry fails. */
  function BankBalances(accounts: seq<Account>, convert: Bech32Converter): Result<seq<Balance>, GenesisError>
  {
    if accounts == [] then Success([])
    else match BankBalances(accounts[..|accounts| - 1], convert)
      case Failure(err) => Failure(err)
      case Success(bs) =>
        match BalanceEntry(accounts[|accounts| - 1], convert)
        case Failure(err) => Failure(err)
        case Success(b) => Success(bs + [b])
  }

  /**
   * The balances are written exactly when every account's entry is, one
   * balance per account in the order of the accounts.
   */
  lemma {:induction false} BankBalancesSucceed(accounts: seq<Account>, convert: Bech32Converter)
    ensures BankBalances(accounts, convert).Success? <==>
      forall i :: 0 <= i < |accounts| ==> BalanceEntry(accounts[i], convert).Success?
    ensures BankBalances(accounts, convert).Success? ==>
      var bs := BankBalances(accounts, convert).value;
      |bs| == |accounts| && forall i :: 0 <= i < |accounts| ==> bs[i] == BalanceEntry(accounts[i], convert).value
  {
    if accounts != [] {
      var init := accounts[..|accounts| - 1];
      BankBalancesSucceed(init, convert);
      assert forall i :: 0 <= i < |init| ==> init[i] == accounts[i];
    }
  }

  /** A failure is the error of the first account whose entry fails. */
  lemma {:induction false} BankBalancesFirstError(accounts: seq<Account>, convert: Bech32Converter)
    requires BankBalances(accounts, convert).Failure?
    ensures exists i :: (0 <= i < |accounts|
      && BalanceEntry(accounts[i], convert) == Failure(BankBalances(accounts, convert).error)
      && forall j :: 0 <= j < i ==> BalanceEntry(accounts[j], convert).Success?)
  {
    var init, last := accounts[..|accounts| - 1], accounts[|accounts| - 1];
    assert forall i :: 0 <= i < |init| ==> init[i] == accounts[i];
    if BankBalances(init, convert).Failure? {
      BankBalancesFirstError(init, convert);
      var i :| 0 <= i < |init|
        && BalanceEntry(init[i], convert) == Failure(BankBalances(init, convert).error)
        && forall j :: 0 <= j < i ==> BalanceEntry(init[j], convert).Success?;
      assert BalanceEntry(accounts[i], convert) == Failure(BankBalances(accounts, convert).error);
    } else {
      BankBalancesSucceed(init, convert);
      assert BalanceEntry(accounts[|init|], convert) == Failure(BankBalances(accounts, convert).error);
    }
  }

  /** The inherited votes of an account's delegations, as the inner loop of `writeBankGenesis` sums them. */
  method InheritedBalance(delegations: seq<Delegation>) returns (balance: Dec)
    ensures balance == DelegatedBalance(delegations)
  {
    balance := 0;
    for k := 0 to |delegations|
      invariant balance == DelegatedBalance(delegations[..k])
    {
      var deleg := delegations[k];
      var b := ApplyVoteOptions(deleg.vote, deleg.amount);
      assert delegations[..k + 1][..k] == delegations[..k];
      balance := balance + b;
    }
    assert delegations[..|delegations|] == delegations;
  }

  /**
   * The balances part of `writeBankGenesis`: one balance per account, or the
   * error at the first account whose address cannot be re-encoded or whose
   * balance cannot become a coin.
   */
  method WriteBankBalances(accounts: seq<Account>, convert: Bech32Converter)
    returns (r: Result<seq<Balance>, GenesisError>)
    ensures r == BankBalances(accounts, convert)
  {
    var balances: seq<Balance> := [];
    for i := 0 to |accounts|
      invariant BankBalances(accounts[..i], convert) == Success(balances)
    {
      var a := accounts[i];
      var balance: Dec := 0;
      if |a.vote| > 0 {
        // direct vote
        balance := ApplyVoteOptions(a.vote, a.stakedAmount);
      } else {
        // inherited votes
        balance := InheritedBalance(a.delegations);
      }
      assert accounts[..i + 1][..i] == accounts[..i];
      match convert(a.address, "cosmos", Ticker)
      case Failure(msg) =>
        BankBalancesStop(accounts, i + 1, convert);
        return Failure(Bech32Error(msg));
      case Success(govgenAddr) =>
        match TruncateInt64(balance)
        case None =>
          BankBalancesStop(accounts, i + 1, convert);
          return Failure(Int64Panic);
        case Some(n) =>
          if n < 0 {
            BankBalancesStop(accounts, i + 1, convert);
            return Failure(NegativeCoinPanic);
          }
          balances := balances + [Balance(govgenAddr, Coins(n))];
    }
    assert accounts[..|accounts|] == accounts;
    r := Success(balances);
  }

  /** Once an entry fails, the failure is the result of the whole list. */
  lemma {:induction false} BankBalancesStop(accounts: seq<Account>, k: nat, convert: Bech32Converter)
    requires k <= |accounts|
    requires BankBalances(accounts[..k], convert).Failure?
    ensures BankBalances(accounts, convert) == BankBalances(accounts[..k], convert)
    decreases |accounts| - k
  {
    if k < |accounts| {
      assert accounts[..k + 1][..k] == accounts[..k];
      BankBalancesStop(accounts, k + 1, convert);
    } else {
      assert accounts[..k] == accounts;
    }
  }
}
