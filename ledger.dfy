/**
 * Chip balances as the token contract stores them: a dictionary from address
 * to integer in which an address never written reads as 0. Balances are
 * plain integers; nothing in the ledger keeps them non-negative.
 */
module Ledger {
  import opened Icon

  type Balances = map<Address, int>

  /** `_balances[a]`: the stored balance, or 0 for an address never written. */
  function Bal(m: Balances, a: Address): int
  {
    if a in m then m[a] else 0
  }

  /** `_balances[a] = _balances[a] + v`. */
  function Credit(m: Balances, a: Address, v: int): (r: Balances)
    ensures Bal(r, a) == Bal(m, a) + v
    ensures forall b :: b != a ==> Bal(r, b) == Bal(m, b)
  {
    m[a := Bal(m, a) + v]
  }

  /** The two writes of a transfer: debit `from`, then credit `to` (read after the debit). */
  function Move(m: Balances, from: Address, to: Address, v: int): (r: Balances)
  {
    Credit(Credit(m, from, -v), to, v)
  }

  /** The sum of all stored balances. */
  ghost function Total(m: Balances): int
    decreases |m|
  {
    if m == map[] then 0 else var a :| a in m; m[a] + Total(m - {a})
  }

  /** The sum can be split at any stored address, not only at the one `Total` picks. */
  lemma {:induction false} TotalSplit(m: Balances, a: Address)
    requires a in m
    ensures Total(m) == m[a] + Total(m - {a})
    decreases |m|
  {
    var x :| x in m && Total(m) == m[x] + Total(m - {x});
    if x != a {
      TotalSplit(m - {x}, a);
      TotalSplit(m - {a}, x);
      assert m - {x} - {a} == m - {a} - {x};
    }
  }

  /** Crediting `v` to one address raises the sum by exactly `v`. */
  lemma TotalCredit(m: Balances, a: Address, v: int)
    ensures Total(Credit(m, a, v)) == Total(m) + v
  {
    var r := Credit(m, a, v);
    TotalSplit(r, a);
    if a in m {
      TotalSplit(m, a);
      assert r - {a} == m - {a};
    } else {
      assert r - {a} == m;
    }
  }

  /**
   * A move debits `from` and credits `to` by the same amount, leaves every
   * other balance alone, and keeps the sum of balances.
   */
  lemma MoveConserves(m: Balances, from: Address, to: Address, v: int)
    ensures Total(Move(m, from, to, v)) == Total(m)
    ensures from != to ==> Bal(Move(m, from, to, v), from) == Bal(m, from) - v
    ensures from != to ==> Bal(Move(m, from, to, v), to) == Bal(m, to) + v
    ensures from == to ==> Bal(Move(m, from, to, v), from) == Bal(m, from)
    ensures forall b :: b != from && b != to ==> Bal(Move(m, from, to, v), b) == Bal(m, b)
  {
    TotalCredit(m, from, -v);
    TotalCredit(Credit(m, from, -v), to, v);
  }
}
