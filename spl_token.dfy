/** The two SPL token-program accounts whose values the liquidity handlers
    read and change: the LP mint's total supply and a holder's LP balance.
    Only the effect of `mint_to` and `burn` on them is modelled. */
module SplToken {

  /** An SPL mint; only its total supply matters here. */
  class Mint {
    var supply: nat

    constructor (supply: nat)
      ensures this.supply == supply
    {
      this.supply := supply;
    }
  }

  /** An SPL token account; only its balance matters here. */
  class TokenAccount {
    var amount: nat

    constructor (amount: nat)
      ensures this.amount == amount
    {
      this.amount := amount;
    }
  }

  /** `token::mint_to`: new tokens raise both the supply and the balance. */
  method MintTo(mint: Mint, to: TokenAccount, amount: nat)
    modifies mint, to
    ensures mint.supply == old(mint.supply) + amount
    ensures to.amount == old(to.amount) + amount
  {
    mint.supply := mint.supply + amount;
    to.amount := to.amount + amount;
  }

  /** `token::burn`: burnt tokens leave both the balance and the supply. */
  method Burn(mint: Mint, from: TokenAccount, amount: nat)
    requires amount <= from.amount && amount <= mint.supply
    modifies mint, from
    ensures mint.supply == old(mint.supply) - amount
    ensures from.amount == old(from.amount) - amount
  {
    from.amount := from.amount - amount;
    mint.supply := mint.supply - amount;
  }
}
