/** The token that both vaults mint through: balances, total supply, and `donate`. */
module DonationToken {
  import opened Words
  import opened MapSums

  const INITIAL_SUPPLY: nat := 1000000000000000000000

  datatype Token = Token(balances: map<EthAddress, nat>, totalSupply: nat)

  /** `donate` reverts on a zero amount, on the zero receiver, and when the supply would overflow. */
  predicate CanDonate(t: Token, amount: nat, to: EthAddress) {
    amount > 0 && to != 0 && t.totalSupply + amount < TWO_256
  }

  function Mint(t: Token, amount: nat, to: EthAddress): Token {
    Token(t.balances[to := Get(t.balances, to) + amount], t.totalSupply + amount)
  }

  /** The supply is the sum of the balances and fits a word, hence every balance does. */
  ghost predicate TokenInv(t: Token) {
    Sum(t.balances) == t.totalSupply < TWO_256
  }

  lemma MintKeepsInv(t: Token, amount: nat, to: EthAddress)
    requires TokenInv(t) && CanDonate(t, amount, to)
    ensures TokenInv(Mint(t, amount, to))
    ensures forall a :: Get(Mint(t, amount, to).balances, a) == Get(t.balances, a) + if a == to then amount else 0
  {
    SumUpdate(t.balances, to, Get(t.balances, to) + amount);
  }

  /** What is donated always adds to the supply; what is not is zero, for nobody, or more than a word can hold. */
  lemma DonationAcceptedIff(t: Token, amount: nat, to: EthAddress)
    ensures CanDonate(t, amount, to) <==>
      to != 0 && t.totalSupply < Mint(t, amount, to).totalSupply < TWO_256
    ensures Mint(t, amount, to).totalSupply == t.totalSupply + amount
  {
  }

  lemma BalancesFit(t: Token, a: EthAddress)
    requires TokenInv(t)
    ensures Get(t.balances, a) < TWO_256
  {
    ValueAtMostSum(t.balances, a);
  }

  class Donation {
    const receiver: EthAddress
    var balances: map<EthAddress, nat>
    var totalSupply: nat

    constructor (receiver: EthAddress, deployer: EthAddress)
      ensures Valid() && this.receiver == receiver
      ensures Abs() == Mint(Token(map[], 0), INITIAL_SUPPLY, deployer)
    {
      this.receiver := receiver;
      balances := map[deployer := INITIAL_SUPPLY];
      totalSupply := INITIAL_SUPPLY;
      new;
      SumUpdate(map[], deployer, INITIAL_SUPPLY);
      assert map[][deployer := INITIAL_SUPPLY] == balances;
    }

    ghost function Abs(): Token
      reads this
    {
      Token(balances, totalSupply)
    }

    ghost predicate Valid()
      reads this
    {
      TokenInv(Abs())
    }

    method Donate(amount: Word, to: EthAddress) returns (ok: bool)
      requires Valid()
      modifies this
      ensures Valid()
      ensures ok == CanDonate(old(Abs()), amount, to)
      ensures Abs() == if ok then Mint(old(Abs()), amount, to) else old(Abs())
    {
      if amount == 0 {
        return false;
      }
      if to == 0 || totalSupply + amount >= TWO_256 {
        return false;
      }
      MintKeepsInv(Abs(), amount, to);
      totalSupply := totalSupply + amount;
      balances := balances[to := Get(balances, to) + amount];
      return true;
    }
  }
}
