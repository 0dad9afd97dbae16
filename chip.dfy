/**
 * The chip token contract: per-address balances, a total supply counter
 * and the number of decimals fixed at installation. `mint`, `burn` and `bet`
 * may be called only by a contract; `transfer` by anyone, for their own
 * chips. A method that reverts leaves every balance as it was.
 */
module Chips {
  import opened Icon
  import opened Ledger

  /** Why a chip operation reverts. */
  datatype ChipError =
    | NotCalledByContract   // the direct caller is an end-user account
    | NegativeValue         // a transfer of less than zero
    | OutOfBalance          // a transfer of more than the sender holds
    | NotEnoughToBurn       // a burn of at least the whole balance
    | FractionalAmount      // negative decimals make `10 ** decimals` a float, which the integer balance store refuses

  /** `10 ** n`. */
  function Pow10(n: nat): (r: nat)
    ensures r >= 1
    ensures n > 0 ==> r % 10 == 0
  {
    if n == 0 then 1 else 10 * Pow10(n - 1)
  }

  class Chip {
    /** The address the chip contract is deployed at. */
    const address: Address
    var balances: Balances
    var totalSupply: int
    var decimals: int

    /** `on_install(decimals)`, 8 decimals unless given: no balances, a total supply of 0. */
    constructor (address: Address, decimals: int := 8)
      ensures this.address == address
      ensures balances == map[] && totalSupply == 0 && this.decimals == decimals
    {
      this.address := address;
      balances := map[];
      totalSupply := 0;
      this.decimals := decimals;
    }

    /** `balanceOf`: what the address holds, 0 if it never held anything. */
    method BalanceOf(owner: Address) returns (b: int)
      ensures b == Bal(balances, owner)
      ensures owner !in balances ==> b == 0
    {
      b := if owner in balances then balances[owner] else 0;
    }

    /**
     * `mint(amount)`: only a contract may call it; the transaction's origin
     * is credited `amount * 10 ** decimals`. With negative decimals the
     * credit is a float, which the balance store refuses, so the call
     * reverts. The total supply is not updated.
     */
    method Mint(sender: Address, origin: Address, amount: int) returns (r: Result<(), ChipError>)
      modifies this`balances
      ensures r.Failure? <==> !sender.IsContract() || decimals < 0
      ensures !sender.IsContract() ==> r == Failure(NotCalledByContract)
      ensures sender.IsContract() && decimals < 0 ==> r == Failure(FractionalAmount)
      ensures r.Failure? ==> balances == old(balances)
      ensures r.Success? ==> decimals >= 0 && balances == Credit(old(balances), origin, amount * Pow10(decimals as nat))
      ensures r.Success? ==> decimals >= 0 && Total(balances) == old(Total(balances)) + amount * Pow10(decimals as nat)
      ensures totalSupply == old(totalSupply)
    {
      if !sender.IsContract() {
        return Failure(NotCalledByContract);
      }
      if decimals < 0 {
        return Failure(FractionalAmount);
      }
      TotalCredit(balances, origin, amount * Pow10(decimals as nat));
      balances := Credit(balances, origin, amount * Pow10(decimals as nat));
      r := Success(());
    }

    /**
     * `burn(amount)`: only a contract may call it, and only when the origin
     * holds strictly more than `amount`; then `amount * 10 ** decimals` is
     * debited. The comparison is against the unscaled amount and the total
     * supply is not updated. With negative decimals the debit is a float,
     * which the balance store refuses, so the call reverts.
     */
    method Burn(sender: Address, origin: Address, amount: int) returns (r: Result<(), ChipError>)
      modifies this`balances
      ensures r.Success? <==> sender.IsContract() && Bal(old(balances), origin) > amount && decimals >= 0
      ensures !sender.IsContract() ==> r == Failure(NotCalledByContract)
      ensures sender.IsContract() && Bal(old(balances), origin) <= amount ==> r == Failure(NotEnoughToBurn)
      ensures sender.IsContract() && Bal(old(balances), origin) > amount && decimals < 0 ==> r == Failure(FractionalAmount)
      ensures r.Failure? ==> balances == old(balances)
      ensures r.Success? ==> decimals >= 0 && balances == Credit(old(balances), origin, -(amount * Pow10(decimals as nat)))
      ensures r.Success? ==> decimals >= 0 && Total(balances) == old(Total(balances)) - amount * Pow10(decimals as nat)
      ensures totalSupply == old(totalSupply)
    {
      if !sender.IsContract() {
        return Failure(NotCalledByContract);
      }
      if Bal(balances, origin) > amount {
        if decimals < 0 {
          return Failure(FractionalAmount);
        }
        BurnFrom(origin, amount * Pow10(decimals as nat));
        r := Success(());
      } else {
        r := Failure(NotEnoughToBurn);
      }
    }

    /** `transfer(to, value)`: the caller sends `value` of their own chips to `to`. */
    method Transfer(sender: Address, to: Address, value: int) returns (r: Result<(), ChipError>)
      modifies this`balances
      ensures value < 0 ==> r == Failure(NegativeValue)
      ensures value >= 0 && Bal(old(balances), sender) < value ==> r == Failure(OutOfBalance)
      ensures r.Success? <==> 0 <= value <= Bal(old(balances), sender)
      ensures r.Failure? ==> balances == old(balances)
      ensures r.Success? ==> balances == Move(old(balances), sender, to, value)
      ensures r.Success? && sender != to ==>
        Bal(balances, sender) == Bal(old(balances), sender) - value &&
        Bal(balances, to) == Bal(old(balances), to) + value
      ensures forall a :: a != sender && a != to ==> Bal(balances, a) == Bal(old(balances), a)
      ensures Total(balances) == old(Total(balances))
    {
      if value < 0 {
        return Failure(NegativeValue);
      }
      if Bal(balances, sender) < value {
        return Failure(OutOfBalance);
      }
      MoveConserves(balances, sender, to, value);
      balances := Credit(balances, sender, -value);
      balances := Credit(balances, to, value);
      r := Success(());
    }

    /** `_burn`: debit the address, with no check. */
    method BurnFrom(address: Address, amount: int)
      modifies this`balances
      ensures balances == Credit(old(balances), address, -amount)
      ensures Total(balances) == old(Total(balances)) - amount
    {
      TotalCredit(balances, address, -amount);
      balances := Credit(balances, address, -amount);
    }

    /**
     * `bet(from, to, value)`: only a contract may call it; `value` moves from
     * `from` to `to` with no check of `from`'s balance, which may go negative.
     */
    method Bet(sender: Address, from: Address, to: Address, value: int) returns (r: Result<(), ChipError>)
      modifies this`balances
      ensures r.Success? <==> sender.IsContract()
      ensures r.Failure? ==> r.error == NotCalledByContract && balances == old(balances)
      ensures r.Success? ==> balances == Move(old(balances), from, to, value)
      ensures forall a :: a != from && a != to ==> Bal(balances, a) == Bal(old(balances), a)
      ensures Total(balances) == old(Total(balances))
    {
      if !sender.IsContract() {
        return Failure(NotCalledByContract);
      }
      MoveConserves(balances, from, to, value);
      balances := Credit(balances, from, -value);
      balances := Credit(balances, to, value);
      r := Success(());
    }
  }

  /**
   * With no decimals, an account minted 11 chips can burn 10 once; a second
   * burn of 10 reverts, since 1 is not more than 10.
   */
  method BurnTwiceScenario() returns (first: Result<(), ChipError>, second: Result<(), ChipError>, left: int)
    ensures first.Success? && second == Failure(NotEnoughToBurn) && left == 1
  {
    var chip := new Chip(Address(Contract, 3), 0);
    var game := Address(Contract, 1);
    var player := Address(Eoa, 2);
    var minted := chip.Mint(game, player, 11);
    first := chip.Burn(game, player, 10);
    second := chip.Burn(game, player, 10);
    left := chip.BalanceOf(player);
  }

  /** A bet needs no balance: betting 10 from an empty account leaves it at -10. */
  method BetOverdrawsScenario() returns (r: Result<(), ChipError>, left: int, escrow: int)
    ensures r.Success? && left == -10 && escrow == 10
  {
    var chip := new Chip(Address(Contract, 3), 0);
    var game := Address(Contract, 1);
    var player := Address(Eoa, 2);
    r := chip.Bet(game, player, game, 10);
    left := chip.BalanceOf(player);
    escrow := chip.BalanceOf(game);
  }

  /**
   * Installed without decimals, the chip has 8; installed with negative
   * decimals, every mint reverts, since the scaled amount is not a whole number.
   */
  method DecimalsScenario() returns (standardDecimals: int, minted: Result<(), ChipError>, left: int)
    ensures standardDecimals == 8 && minted == Failure(FractionalAmount) && left == 0
  {
    var standard := new Chip(Address(Contract, 3));
    standardDecimals := standard.decimals;
    var odd := new Chip(Address(Contract, 4), -1);
    var player := Address(Eoa, 2);
    minted := odd.Mint(Address(Contract, 1), player, 5);
    left := odd.BalanceOf(player);
  }
}
