/**
 * How a finished round is settled: who is paid what out of the game
 * contract's escrow, what is written to the result log, and who counts as
 * the loser; and the chip movements of escrowing the stakes at game start
 * and paying the pot out at the end.
 */
module Settlement {
  import opened Icon
  import opened Ledger
  import opened Chips

  /** A line of the result log: "<winner> wins against <other>." or "Draw!! <first>, <second>." */
  datatype Outcome = Wins(winner: Address, against: Address) | Draw(first: Address, second: Address)

  /** One `transfer` out of the game contract's balance. */
  datatype Payout = Payout(to: Address, amount: int)

  /** The transfers, the logged outcome and the loser of one round. */
  datatype Verdict = Verdict(payouts: seq<Payout>, outcome: Outcome, loser: Option<Address>)

  /** A hand over this value is bust. */
  const BustLimit := 21

  /**
   * The decision taken by `calculate` from the first and second
   * participant's hand values. When a hand is bust, the first participant is
   * paid if the second hand is bust (even if both are), and the loser is the
   * first participant if the first hand is bust; otherwise the higher value
   * takes the pot and equal values return each stake.
   */
  function Settle(first: Address, second: Address, v1: int, v2: int, stake: int): Verdict
  {
    if v1 > BustLimit || v2 > BustLimit then
      Verdict(
        [Payout(if v2 > BustLimit then first else second, stake * 2)],
        if v2 > BustLimit then Wins(first, second) else Wins(second, first),
        Some(if v1 > BustLimit then first else second))
    else if v1 > v2 then
      Verdict([Payout(first, stake * 2)], Wins(first, second), Some(second))
    else if v1 < v2 then
      Verdict([Payout(second, stake * 2)], Wins(second, first), Some(first))
    else
      Verdict([Payout(first, stake), Payout(second, stake)], Draw(first, second), None)
  }

  /** The total of the amounts paid out. */
  function Sum(payouts: seq<Payout>): int
  {
    if payouts == [] then 0 else payouts[0].amount + Sum(payouts[1..])
  }

  /** What `a` receives from the payouts. */
  function Received(payouts: seq<Payout>, a: Address): int
  {
    if payouts == [] then 0
    else (if payouts[0].to == a then payouts[0].amount else 0) + Received(payouts[1..], a)
  }

  /**
   * Pot conservation: every branch pays exactly twice the stake in total,
   * only to the two participants, one or two transfers.
   */
  lemma SettlePaysPot(first: Address, second: Address, v1: int, v2: int, stake: int)
    requires first != second
    ensures var v := Settle(first, second, v1, v2, stake);
      && 1 <= |v.payouts| <= 2
      && Sum(v.payouts) == 2 * stake
      && Received(v.payouts, first) + Received(v.payouts, second) == 2 * stake
      && (forall a :: a != first && a != second ==> Received(v.payouts, a) == 0)
      && (forall i :: 0 <= i < |v.payouts| ==>
            (v.payouts[i].to == first || v.payouts[i].to == second) && (stake >= 0 ==> v.payouts[i].amount >= 0))
      && (v.loser.Some? ==> v.loser.value == first || v.loser.value == second)
  {
    var ps := Settle(first, second, v1, v2, stake).payouts;
    if |ps| == 1 {
      assert ps[1..] == [];
    } else {
      PairSums(ps[0], ps[1]);
      assert ps == [ps[0], ps[1]];
    }
  }

  lemma PairSums(p: Payout, q: Payout)
    ensures Sum([p, q]) == p.amount + q.amount
    ensures forall a :: Received([p, q], a) == (if p.to == a then p.amount else 0) + (if q.to == a then q.amount else 0)
  {
    var l := [p, q];
    assert l[1..] == [q];
    assert [q][1..] == [];
    assert Sum([q]) == q.amount;
    assert Sum(l) == p.amount + Sum([q]);
    forall a ensures Received(l, a) == (if p.to == a then p.amount else 0) + (if q.to == a then q.amount else 0) {
      assert Received([q], a) == (if q.to == a then q.amount else 0);
    }
  }

  /** Exactly one hand bust: the other participant takes the whole pot and the bust one loses. */
  lemma SettleOneBust(first: Address, second: Address, v1: int, v2: int, stake: int)
    requires (v1 > BustLimit) != (v2 > BustLimit)
    ensures var v := Settle(first, second, v1, v2, stake);
      var winner := if v1 > BustLimit then second else first;
      var loser := if v1 > BustLimit then first else second;
      v.payouts == [Payout(winner, 2 * stake)] && v.outcome == Wins(winner, loser) && v.loser == Some(loser)
  {
  }

  /** Both hands bust: the first participant is paid the pot and is also the loser. */
  lemma SettleDoubleBust(first: Address, second: Address, v1: int, v2: int, stake: int)
    requires v1 > BustLimit && v2 > BustLimit
    ensures var v := Settle(first, second, v1, v2, stake);
      v.payouts == [Payout(first, 2 * stake)] && v.outcome == Wins(first, second) && v.loser == Some(first)
  {
  }

  /** No hand bust: the higher value takes the pot; equal values are a draw with no loser. */
  lemma SettleNoBust(first: Address, second: Address, v1: int, v2: int, stake: int)
    requires v1 <= BustLimit && v2 <= BustLimit
    ensures var v := Settle(first, second, v1, v2, stake);
      && (v1 > v2 ==> v.payouts == [Payout(first, 2 * stake)] && v.loser == Some(second))
      && (v1 < v2 ==> v.payouts == [Payout(second, 2 * stake)] && v.loser == Some(first))
      && (v1 == v2 <==> v.outcome == Draw(first, second))
      && (v1 == v2 ==> v.payouts == [Payout(first, stake), Payout(second, stake)] && v.loser == None)
  {
  }

  /**
   * The payouts as consecutive `transfer`s from `from`: each reverts on a
   * negative amount or when `from` holds less than it.
   */
  function PayAll(bal: Balances, from: Address, payouts: seq<Payout>): Result<Balances, ChipError>
    decreases |payouts|
  {
    if payouts == [] then Success(bal)
    else if payouts[0].amount < 0 then Failure(NegativeValue)
    else if Bal(bal, from) < payouts[0].amount then Failure(OutOfBalance)
    else PayAll(Move(bal, from, payouts[0].to, payouts[0].amount), from, payouts[1..])
  }

  /** Paying out a single payout is one checked transfer. */
  lemma PayOne(bal: Balances, from: Address, p: Payout)
    ensures PayAll(bal, from, [p]) ==
      if p.amount < 0 then Failure(NegativeValue)
      else if Bal(bal, from) < p.amount then Failure(OutOfBalance)
      else Success(Move(bal, from, p.to, p.amount))
  {
    assert [p][1..] == [];
  }

  /** Paying out two payouts is the first transfer, then the second from what it leaves. */
  lemma PayTwo(bal: Balances, from: Address, p: Payout, q: Payout)
    ensures PayAll(bal, from, [p, q]) ==
      match PayAll(bal, from, [p])
      case Failure(e) => Failure(e)
      case Success(b) => PayAll(b, from, [q])
  {
    assert [p, q][1..] == [q];
    PayOne(bal, from, p);
  }

  /**
   * Paying out keeps the sum of balances; every recipient gains what it
   * receives and the payer loses the total (less what it pays itself).
   */
  lemma {:induction false} PayAllMoves(bal: Balances, from: Address, payouts: seq<Payout>)
    requires PayAll(bal, from, payouts).Success?
    ensures Total(PayAll(bal, from, payouts).value) == Total(bal)
    ensures Bal(PayAll(bal, from, payouts).value, from) == Bal(bal, from) - Sum(payouts) + Received(payouts, from)
    ensures forall a :: a != from ==>
      Bal(PayAll(bal, from, payouts).value, a) == Bal(bal, a) + Received(payouts, a)
    decreases |payouts|
  {
    if payouts != [] {
      var p := payouts[0];
      var next := Move(bal, from, p.to, p.amount);
      MoveConserves(bal, from, p.to, p.amount);
      PayAllMoves(next, from, payouts[1..]);
    }
  }

  /** When the payer holds the total and no amount is negative, no transfer reverts. */
  lemma {:induction false} PayAllSucceeds(bal: Balances, from: Address, payouts: seq<Payout>)
    requires forall i :: 0 <= i < |payouts| ==> payouts[i].amount >= 0 && payouts[i].to != from
    requires Bal(bal, from) >= Sum(payouts)
    ensures PayAll(bal, from, payouts).Success?
    decreases |payouts|
  {
    if payouts != [] {
      var p := payouts[0];
      assert Sum(payouts) == p.amount + Sum(payouts[1..]);
      MoveConserves(bal, from, p.to, p.amount);
      PayAllSucceeds(Move(bal, from, p.to, p.amount), from, payouts[1..]);
    }
  }

  /** The stakes escrowed at game start: one `bet` of `stake` from each participant to the game. */
  function Escrowed(bal: Balances, participants: seq<Address>, game: Address, stake: int): Balances
    decreases |participants|
  {
    if participants == [] then bal
    else Escrowed(Move(bal, participants[0], game, stake), participants[1..], game, stake)
  }

  /** Escrowing keeps the sum of balances. */
  lemma {:induction false} EscrowedConserves(bal: Balances, participants: seq<Address>, game: Address, stake: int)
    ensures Total(Escrowed(bal, participants, game, stake)) == Total(bal)
    decreases |participants|
  {
    if participants != [] {
      MoveConserves(bal, participants[0], game, stake);
      EscrowedConserves(Move(bal, participants[0], game, stake), participants[1..], game, stake);
    }
  }

  /**
   * Escrowing takes the stake from each participant (balances may go
   * negative), gives the game all of them and touches no other balance.
   */
  lemma {:induction false} EscrowedMoves(bal: Balances, participants: seq<Address>, game: Address, stake: int)
    requires game !in participants
    requires forall i, j :: 0 <= i < j < |participants| ==> participants[i] != participants[j]
    ensures Bal(Escrowed(bal, participants, game, stake), game) == Bal(bal, game) + |participants| * stake
    ensures forall p :: p in participants ==> Bal(Escrowed(bal, participants, game, stake), p) == Bal(bal, p) - stake
    ensures forall a :: a != game && a !in participants ==> Bal(Escrowed(bal, participants, game, stake), a) == Bal(bal, a)
    decreases |participants|
  {
    if participants != [] {
      var p := participants[0];
      var rest := participants[1..];
      var next := Move(bal, p, game, stake);
      MoveConserves(bal, p, game, stake);
      assert forall i, j :: 0 <= i < j < |rest| ==> rest[i] != rest[j] by {
        forall i, j | 0 <= i < j < |rest| ensures rest[i] != rest[j] {
          assert rest[i] == participants[i + 1] && rest[j] == participants[j + 1];
        }
      }
      assert p !in rest by {
        forall j | 0 <= j < |rest| ensures rest[j] != p {
          assert rest[j] == participants[j + 1];
        }
      }
      EscrowedMoves(next, rest, game, stake);
      var after := Escrowed(next, rest, game, stake);
      assert Escrowed(bal, participants, game, stake) == after;
      assert |participants| == |rest| + 1;
      assert (|rest| + 1) * stake == |rest| * stake + stake;
      forall q | q in participants ensures Bal(after, q) == Bal(bal, q) - stake {
        if q != p {
          assert q in rest;
        }
      }
    }
  }
}
