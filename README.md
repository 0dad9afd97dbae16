# SampleGame in Dafny

A model of SampleGame: a two-player blackjack game written as two ICON smart
contracts, with proofs about the model.

- The game contract keeps a registry of game rooms, seats players in them,
  deals cards, settles rounds and bans players who can no longer cover the stake.
- The token contract, "Chip", keeps the balances that players stake.

The model follows the code bottom-up:

| file | module | models |
|---|---|---|
| `icon.dfy` | `Icon` | addresses (an end-user `hx` or a contract `cx` account), `Option`, `Result` |
| `seqs.dfy` | `Seqs` | Python's `list.pop(k)`, `list.remove(x)` and `list.index(x)` on sequences |
| `cards.dfy` | `Cards` | suits, ranks and the blackjack value table |
| `hand.dfy` | `Hands` | the `Hand` object: `add_card` and the `adjust_for_ace` loop |
| `deck.dfy` | `Decks` | the `Deck` object: the 52-card constructor and `deal` |
| `gameroom.dfy` | `GameRooms` | the `GameRoom` object: `join`, `escape`, `game_start`, `game_stop`, and its record form |
| `ledger.dfy` | `Ledger` | a balance map with the DictDB default of 0, credits, moves and the balance sum |
| `chip.dfy` | `Chips` | the `Chip` contract: `balanceOf`, `mint`, `burn`, `_burn`, `transfer`, `bet` |
| `settlement.dfy` | `Settlement` | the decision in `calculate`, the payouts it makes, and the stakes `gameStart` escrows |
| `registry.dfy` | `Registry` | the game's stores as one value, the invariant that ties them together, and `_crash_room` / `_ban` |
| `rounds.dfy` | `Rounds` | every game operation as a function from stores to stores or a revert reason, with the proofs that each keeps the invariant |
| `game.dfy` | `Game` | the `SampleGame` contract as a class whose methods update its stores step by step, each proved equal to its function in `Rounds` |

## How the model is built

- **Transactions.** Every external operation either commits or reverts as a
  whole. Each method of `Game.SampleGame` returns a `Result`.
  - On failure, the stores (the chip balances included) are exactly as before.
  - On success, the stores are what the matching function in `Rounds` computes.
  - `Game.Effect` relates the two.
- **Invariant.** `Registry.Inv` collects what the source keeps true between transactions:
  - every stored room is keyed by its owner, who is its first participant, with one or two distinct participants;
  - occupancy is exclusive: `inGameRoom[p] == id` exactly when `p` is a participant of room `id`;
  - the room list mirrors the room registry, one entry per room, recorded as inactive;
  - every player's hand is consistent with its cards, holds at most five cards and is fixed at five;
  - every player's hand and deck together are the 52 cards of a fresh deck.

  `Rounds` proves that every operation keeps `Inv`.
- **Records.** The source rebuilds objects from their JSON strings and stores them back as strings. Here the stores hold records (`RoomRecord`, `HandRecord`, `Card`).
  - The classes `GameRooms.GameRoom`, `Hands.Hand` and `Decks.Deck` convert to and from these records.
  - Reading a room or a hand that was never stored makes `json_loads` fail on the empty string; this is modelled as the error `MissingRecord`.
- **Caller and block.** `msg.sender`, `tx.origin`, the block height and the hash behind `deal` are parameters.
- **Chip calls.** The game's calls into the chip contract are synchronous. The game therefore holds its `Chip` object and calls its methods with the game's own address as the caller.
- **Installation.** A deployed contract's own address is always a contract address, so the game's address has the type `Icon.ContractAddress`. The token address given to the game's `on_install` is the chip's address; `Game.Install` reverts when it is not a contract's.
- **Decimals.** The chip's `decimals` is any integer, 8 by default. With negative decimals, `10 ** decimals` is a Python float, and the ICON runtime refuses to store a float in an integer `DictDB`. `mint` and `burn` therefore revert before they write, with the error `FractionalAmount`.
- **Stake.** `createRoom` takes a stake of 10 unless one is given, and so does `Game.SampleGame.CreateRoom`.

## Model

| member | source | states |
|---|---|---|
| `Cards.Value` | samplegame/hand/hand.py:4-5 | a rank is worth 2 to 11; exactly the Ace is worth 11; Jack, Queen and King are worth 10 |
| `Cards.FaceValue` | samplegame/hand/hand.py:4-5 | the ranks Two to Ten are worth their face value |
| `Cards.TablesComplete` | samplegame/deck/deck.py:5-6 | every suit and rank appears in the tuples `suits` and `ranks`, each exactly once |
| `Seqs.IndexOf` | samplegame/gameroom/gameroom.py:20-21 | the index of the first occurrence of an element present in the list |
| `Seqs.RemoveAt` | samplegame/deck/deck.py:19 | `pop(k)` shortens the list by one, keeps the elements before `k` and shifts those after it down by one |
| `Seqs.RemoveFirst` | samplegame/gameroom/gameroom.py:20-21 | `list.remove(x)`, defined where `x` occurs: the list with the first occurrence of `x` popped (its properties: `Seqs.RemoveFirstKeepsOthers`, `Seqs.RemoveFirstOfAppended`) |
| `Seqs.RemoveAtMultiset` | samplegame/deck/deck.py:19 | `pop(k)` removes exactly the one element at `k` |
| `Seqs.RemoveAtDistinct` | samplegame/deck/deck.py:19 | popping from a list without duplicates leaves one without duplicates that lacks exactly the popped element |
| `Seqs.RemoveFirstOfAppended` | samplegame/gameroom/gameroom.py:17-21 | appending an absent element and then removing it restores the list |
| `Seqs.RemoveFirstKeepsOthers` | samplegame/gameroom/gameroom.py:20-21 | `remove(x)` drops exactly one `x`, keeps a list distinct and adds nothing |
| `Hands.Adjusted` | samplegame/hand/hand.py:26-29 | the ace adjustment ends with a value of at most 21 or no aces left; it takes 10 per ace demoted and never demotes more aces than the hand has |
| `Hands.AdjustedIdempotent` | samplegame/hand/hand.py:27-29 | adjusting an adjusted hand again changes nothing |
| `Hands.AdjustedStopsAt` | samplegame/hand/hand.py:27-29 | the adjustment stops exactly at the first count of aces where the value is at most 21 |
| `Hands.Drawn` | samplegame/hand/hand.py:20-29 | the stored hand after `add_card(c)` and `adjust_for_ace()`: the card appended, its table value and one more ace if it is an Ace added, then adjusted as `Hands.Adjusted` says; `fix` kept (consistency proved by `Hands.DrawnConsistent`) |
| `Hands.EmptyHandConsistent` | samplegame/hand/hand.py:10-18 | a new hand (no cards, value 0, no aces, not fixed) is consistent |
| `Hands.DrawnConsistent` | samplegame/hand/hand.py:20-29 | adding a card and adjusting for aces keeps a hand's value and ace count equal to the adjusted total of its cards, appends the card and keeps `fix` |
| `Hands.ConsistentIsAdjustedTotal` | samplegame/hand/hand.py:20-29 | a consistent hand's value and ace count are the adjusted total of its cards |
| `Hands.Hand.constructor` | samplegame/hand/hand.py:10-18 | `Hand()` is the empty, unfixed hand of value 0 with no aces |
| `Hands.Hand.FromRecord` | samplegame/samplegame.py:341 | rebuilding a hand from its stored fields gives back exactly those fields |
| `Hands.Hand.AddCard` | samplegame/hand/hand.py:20-24 | `add_card` appends the card, adds the rank's table value, counts an Ace, and keeps `fix` |
| `Hands.Hand.AdjustForAce` | samplegame/hand/hand.py:26-29 | the loop ends with a value of at most 21 or no aces; it takes 10 per ace demoted; the ace count never goes negative; cards and `fix` are unchanged |
| `Decks.FreshDeck` | samplegame/deck/deck.py:11-15 | a fresh deck has 52 cards |
| `Decks.FreshDeckOrder` | samplegame/deck/deck.py:13-15 | the deck is suit-major: position `13*i + j` holds suit `i` and rank `j` |
| `Decks.FreshDeckDistinct` | samplegame/deck/deck.py:11-15 | the 52 cards are pairwise distinct |
| `Decks.FreshDeckComplete` | samplegame/deck/deck.py:5-6 | every card of every suit and rank is in a fresh deck |
| `Decks.DealMany` | samplegame/deck/deck.py:17-20 | one `deal` per entropy value in turn, each popping the card at `entropy mod len`; none as soon as a deal meets an empty deck (its properties: `Decks.DealManyShrinks`) |
| `Decks.DealManyShrinks` | samplegame/deck/deck.py:17-20 | `k` deals from a distinct deck of at least `k` cards all succeed and leave `k` fewer distinct cards, all from the original deck |
| `Decks.DealsFromFreshDeck` | samplegame/deck/deck.py:11-20 | after `k <= 52` deals a fresh deck holds `52 - k` distinct cards |
| `Decks.Deck.constructor` | samplegame/deck/deck.py:11-15 | `Deck()` holds the fresh deck |
| `Decks.Deck.FromCards` | samplegame/samplegame.py:339 | a deck rebuilt from stored cards holds exactly those cards |
| `Decks.Deck.Deal` | samplegame/deck/deck.py:17-20 | `deal` returns the card at `entropy mod len` and removes it: the deck shrinks by one and no longer holds that card; on an empty deck it fails |
| `GameRooms.GameRoom.constructor` | samplegame/gameroom/gameroom.py:6-15 | a new room has no participants and is inactive |
| `GameRooms.GameRoom.FromRecord` | samplegame/gameroom/gameroom.py:29-38 | a room rebuilt from its stored fields gives back owner, id, creation time, stake, participants and `active` unchanged |
| `GameRooms.GameRoom.Join` | samplegame/gameroom/gameroom.py:17-18 | `join` appends the participant and changes nothing else |
| `GameRooms.GameRoom.Escape` | samplegame/gameroom/gameroom.py:20-21 | `escape` succeeds exactly when the participant is present and then removes its first occurrence; otherwise the room is unchanged |
| `GameRooms.GameRoom.GameStart` | samplegame/gameroom/gameroom.py:23-24 | `game_start` sets `active` and changes nothing else |
| `GameRooms.GameRoom.GameStop` | samplegame/gameroom/gameroom.py:26-27 | `game_stop` clears `active` and changes nothing else |
| `GameRooms.JoinThenEscape` | samplegame/gameroom/gameroom.py:17-21 | `join(p)` then `escape(p)` for an absent `p` restores the room |
| `Ledger.Credit` | chip/chip.py:91 | crediting changes only the credited balance, by the amount |
| `Ledger.Move` | chip/chip.py:117-119 | the two writes of a transfer: the payer is debited, then the payee is credited on the balance read after the debit, so a transfer to oneself changes nothing (its properties: `Ledger.MoveConserves`) |
| `Ledger.TotalCredit` | chip/chip.py:91 | crediting raises the balance sum by the amount |
| `Ledger.MoveConserves` | chip/chip.py:118-119 | moving chips keeps the balance sum, debits the payer, credits the payee and leaves every other balance alone |
| `Chips.Pow10` | chip/chip.py:91 | the scale `10 ** decimals` for decimals that are not negative: a whole number, at least 1 |
| `Chips.Chip.constructor` | chip/chip.py:29-33 | `on_install(decimals)`: any integer number of decimals, 8 when none is given; no balances, total supply 0 |
| `Chips.Chip.BalanceOf` | chip/chip.py:74-79 | the holder's balance, 0 for an address never written |
| `Chips.Chip.Mint` | chip/chip.py:82-91 | reverts exactly for a caller that is not a contract or for negative decimals, whose float amount the integer balance store refuses; otherwise credits the origin with `amount * 10**decimals`; the total supply never changes |
| `Chips.Chip.Burn` | chip/chip.py:94-107 | succeeds exactly for a contract caller whose origin holds strictly more than the unscaled amount, with decimals that are not negative, and then debits the scaled amount; negative decimals revert on the float debit; the total supply never changes |
| `Chips.Chip.Transfer` | chip/chip.py:110-119 | a negative value or a balance below the value reverts with the state unchanged; otherwise the sender is debited and the recipient credited, every other balance and the sum are unchanged |
| `Chips.Chip.BurnFrom` | chip/chip.py:125-126 | `_burn` debits the address and lowers the balance sum by the amount |
| `Chips.Chip.Bet` | chip/chip.py:129-134 | fails exactly for a caller that is not a contract; otherwise moves the value with no balance check, keeping the sum |
| `Chips.BurnTwiceScenario` | samplegame/tests/test_samplegame.py:481-488 | with no decimals and 11 chips, a burn of 10 succeeds, a second one fails, and 1 chip is left |
| `Chips.BetOverdrawsScenario` | chip/chip.py:129-134 | a bet from an empty account succeeds and leaves it at -10 |
| `Chips.DecimalsScenario` | chip/chip.py:29-33 | a chip installed without decimals has 8; with negative decimals a mint reverts and credits nothing |
| `Settlement.SettlePaysPot` | samplegame/samplegame.py:410-425 | the verdict pays one or two payouts, all to the two players, totalling twice the stake; the loser, if any, is one of the two |
| `Settlement.Settle` | samplegame/samplegame.py:400-425 | the decision of `calculate` on the first two participants' hand values: a bust in either hand pays twice the stake to the first participant if the second hand is bust, else to the second, and the loser is the first participant if their hand is bust, else the second; otherwise the higher value is paid twice the stake and the other loses; equal values return each stake and have no loser (its properties: `Settlement.SettlePaysPot`, `SettleOneBust`, `SettleDoubleBust`, `SettleNoBust`) |
| `Settlement.SettleOneBust` | samplegame/samplegame.py:410-413 | when exactly one hand is over 21 the other player gets twice the stake and the busted one loses |
| `Settlement.SettleDoubleBust` | samplegame/samplegame.py:410-413 | when both hands are over 21 the first participant is paid twice the stake and is also the loser |
| `Settlement.SettleNoBust` | samplegame/samplegame.py:414-425 | with no bust the higher hand gets twice the stake and the other loses; equal hands, and only they, are a draw that returns the stake to each player and has no loser |
| `Settlement.PayOne` | chip/chip.py:110-119 | a single payout fails or succeeds exactly as one `transfer` from the payer does |
| `Settlement.PayTwo` | samplegame/samplegame.py:423-424 | two payouts are the first transfer and then the second from what the first leaves, stopping at the first failure |
| `Settlement.PayAll` | samplegame/samplegame.py:410-425 | the payouts as `chip.transfer` calls from the game in order, each reverting on a negative amount or a payer balance below it, the first revert ending the run (its properties: `Settlement.PayAllMoves`, `PayAllSucceeds`) |
| `Settlement.PayAllMoves` | samplegame/samplegame.py:410-425 | the payouts keep the balance sum, the payer loses what it pays to others and every address gains what it receives |
| `Settlement.PayAllSucceeds` | samplegame/samplegame.py:410-425 | non-negative payouts to others, covered by the payer's balance, all go through |
| `Settlement.Escrowed` | samplegame/samplegame.py:306-307 | the balances after one unchecked `bet` of the stake from each participant, in order, to the game (its properties: `Settlement.EscrowedConserves`, `EscrowedMoves`) |
| `Settlement.EscrowedConserves` | samplegame/samplegame.py:306-307 | betting the stake from each participant keeps the balance sum |
| `Settlement.EscrowedMoves` | samplegame/samplegame.py:306-307 | the game gains the stake times the number of distinct participants, each participant loses the stake, and nobody else is touched |
| `Registry.FindById` | samplegame/samplegame.py:189-193 | the index of the first list entry for the room id, or none when no entry has it |
| `Registry.ReplaceById` | samplegame/samplegame.py:189-195 | replacing the first entry with the room's id keeps the list's length |
| `Registry.ReplaceUnlisted` | samplegame/samplegame.py:232-238 | when no entry has the room's id the `StopIteration` path leaves the list as it is |
| `Registry.EmptyInv` | samplegame/samplegame.py:63-68 | the stores of a freshly installed game satisfy the invariant |
| `Registry.NewPlayerOk` | samplegame/samplegame.py:137-140 | a new player's empty hand and fresh deck are in order |
| `Registry.GuestIsSecond` | samplegame/samplegame.py:226-228 | in a well-formed room a guest is the second participant, and removing them leaves the owner alone |
| `Registry.FindListed` | samplegame/samplegame.py:189-193 | every stored room has a list entry, equal to its record marked inactive |
| `Registry.ReplaceKeepsMirrored` | samplegame/samplegame.py:189-193 | storing an inactive record and replacing its list entry keeps the list a mirror of the registry |
| `Registry.ToggleKeepsMirrored` | samplegame/samplegame.py:310-312 | switching only `active` in the registry keeps the list a mirror, although the list entry is not refreshed |
| `Registry.Crashed` | samplegame/samplegame.py:142-158 | `_crash_room(id)`: reverts when the room was never stored or its record is not in the list; otherwise every participant in the record is unseated, the room deleted and the first list entry equal to the record removed, the others kept in order (its properties: `Registry.CrashKeepsInv`) |
| `Registry.Unseated` | samplegame/samplegame.py:255-266 | a guest leaving: reverts when the room was never stored or the guest is not a participant; otherwise the guest's first occurrence is removed from the record and from its list entry, and the guest unseated (its properties: `Registry.UnseatKeepsInv`) |
| `Registry.Banned` | samplegame/samplegame.py:242-266 | `_ban(id, p)`: banning the owner crashes the room, banning anyone else unseats them (its properties: `Registry.BanKeepsInv`, `Rounds.BanKeepsLedger`) |
| `Registry.DeleteKeepsMirrored` | samplegame/samplegame.py:151-158 | an inactive room's record is in the list; removing it by equality and deleting the room keeps the list a mirror and leaves no entry with its id |
| `Registry.DeleteKeepsOccupancy` | samplegame/samplegame.py:148-150 | unseating every participant of a room and deleting it keeps occupancy exact |
| `Registry.CrashKeepsInv` | samplegame/samplegame.py:142-158 | crashing an inactive stored room succeeds, keeps the invariant, unseats its participants and unlists it |
| `Registry.CrashAfterUnseating` | samplegame/samplegame.py:249-254 | unseating some of a room's participants before crashing it ends in the same state as crashing it |
| `Registry.UnseatKeepsOccupancy` | samplegame/samplegame.py:255-258 | removing the guest from a room and unseating them keeps occupancy exact |
| `Registry.UnseatKeepsInv` | samplegame/samplegame.py:255-266 | a guest leaving an inactive room succeeds, keeps the invariant and leaves the owner alone |
| `Registry.BanKeepsInv` | samplegame/samplegame.py:242-266 | banning a participant of an inactive room succeeds, keeps the invariant and unseats them |
| `Registry.AddKeepsMirrored` | samplegame/samplegame.py:131-133 | adding an inactive room and appending its record keeps the list a mirror |
| `Registry.AddKeepsOccupancy` | samplegame/samplegame.py:131-134 | seating a room's unseated owner in a new room keeps occupancy exact |
| `Registry.JoinKeepsOccupancy` | samplegame/samplegame.py:185-187 | appending an unseated player to a room and seating them there keeps occupancy exact |
| `Registry.OpenHandRoom` | samplegame/samplegame.py:344-349 | an unfixed hand in order has at most four cards and a deck of at least 48, so `hit` can deal |
| `Registry.DrawKeepsPlayer` | samplegame/samplegame.py:347-351 | fixing a four-card hand as it draws, dealing and adjusting keep the hand and deck in order: at most five cards, together still the 52 |
| `Rounds.FirstNotReady` | samplegame/samplegame.py:302-304 | none exactly when every participant is ready; otherwise a participant who is not |
| `Rounds.FirstNotReadyAt` | samplegame/samplegame.py:302-304 | the readiness check reports the first participant who is not ready |
| `Rounds.ClearReady` | samplegame/samplegame.py:315-316 | every participant's ready flag is cleared and every other flag is kept |
| `Rounds.Created` | samplegame/samplegame.py:117-140 | `createRoom(prize)`: reverts for a caller seated already or holding less than the prize; otherwise stores and lists an inactive room owned by and holding only the caller, seats the caller there, and gives them a fresh deck and an empty hand (its properties: `Rounds.CreateKeepsInv`) |
| `Rounds.Joined` | samplegame/samplegame.py:161-201 | `joinRoom(id)`: reverts for an unknown room, a caller seated already, a caller holding less than the stake or a room of two; otherwise appends the caller to the record and its list entry, seats them, and gives them a fresh deck and an empty hand (its properties: `Rounds.JoinKeepsInv`) |
| `Rounds.Escaped` | samplegame/samplegame.py:204-240 | `escape()`: reverts for a caller seated nowhere or in a running game, or an owner with a guest; an owner alone crashes the room, a guest is unseated (its properties: `Rounds.EscapeKeepsInv`, `OwnerEscapeIsCrash`) |
| `Rounds.Toggled` | samplegame/samplegame.py:274-280 | `toggleReady()`: reverts for a caller seated nowhere; otherwise flips their ready flag, unset counting as false (its properties: `Rounds.ToggleTwice`) |
| `Rounds.Started` | samplegame/samplegame.py:283-316 | `gameStart()`: reverts unless the caller owns a stored inactive room of two whose participants are all ready; otherwise escrows the stake from each participant, marks the room active, records the start height and clears the ready flags (its properties: `Rounds.StartKeepsInv`, `StartEscrows`) |
| `Rounds.AllFixed` | samplegame/samplegame.py:360-372 | true exactly when every participant has a stored, fixed hand; a missing hand is the only failure |
| `Rounds.RoomFixed` | samplegame/samplegame.py:360-372 | `_check_participants_fix(id)`: reverts for a room never stored, otherwise `Rounds.AllFixed` of its participants |
| `Rounds.Stopped` | samplegame/samplegame.py:430-435 | `_game_stop(id)`: reverts for a room never stored; otherwise marks the stored record inactive and leaves the list entry alone (its properties: `Rounds.StopKeepsInv`) |
| `Rounds.Paid` | samplegame/samplegame.py:388-425 | the payout part of `calculate`: stop the game, revert when the room has fewer than two participants or a hand is missing, decide by `Settlement.Settle` on the first two hands, pay by `Settlement.PayAll` from the game, and log the outcome (its properties: `Rounds.PaidKeepsInv`, `PaidPot`) |
| `Rounds.Settled` | samplegame/samplegame.py:388-428 | `calculate(id)`: the payout, then `_ban` of the loser when the stake exceeds what they now hold (its properties: `Rounds.SettleKeepsInv`, `SettleSucceeds`, `SettleConserves`) |
| `Rounds.Drew` | samplegame/samplegame.py:347-353 | the draw of `hit`: a hand of four cards is fixed, the card at position `k` leaves the deck and enters the hand as `Hands.Drawn` says (its properties: `Rounds.DrewKeepsInv`) |
| `Rounds.Hit` | samplegame/samplegame.py:324-358 | `hit()`: reverts for a caller seated nowhere, an inactive room, a missing record, a fixed hand or an empty deck; otherwise draws at `entropy mod len` and settles when every hand is fixed, the hand is over 21 or more than 60 blocks have passed (its properties: `Rounds.HitKeepsInv`, `HitConserves`) |
| `Rounds.Fixed` | samplegame/samplegame.py:375-386 | `fix()`: reverts for a caller without a hand or seated nowhere; otherwise fixes the hand and settles when every hand is fixed or more than 60 blocks have passed, whether or not a game runs (its properties: `Rounds.FixKeepsInv`, `FixedSettles`, `FixSettlesStoppedRoom`, `FixConserves`) |
| `Rounds.OwnerSeated` | samplegame/samplegame.py:128-134 | the owner of a stored room is its participant and is seated in it |
| `Rounds.UnseatedOwnsNoRoom` | samplegame/samplegame.py:119-120 | a caller seated nowhere owns no room, so a new room cannot overwrite one |
| `Rounds.ParticipantsSeated` | samplegame/samplegame.py:360-372 | every participant of a stored room is seated there and has a hand |
| `Rounds.CreateKeepsInv` | samplegame/samplegame.py:117-140 | `createRoom` keeps the invariant and seats the caller in their own room, so a second `createRoom` by the same caller fails |
| `Rounds.JoinKeepsInv` | samplegame/samplegame.py:161-201 | `joinRoom` keeps the invariant; the room then has the owner and the caller, and the caller is seated in it |
| `Rounds.OwnerEscapeIsCrash` | samplegame/samplegame.py:220-240 | an owner alone escaping is exactly a crash of the room |
| `Rounds.EscapeKeepsInv` | samplegame/samplegame.py:204-240 | `escape` succeeds exactly for a seated caller of an inactive room who is a guest or the owner alone; it keeps the invariant and unseats the caller |
| `Rounds.ToggleTwice` | samplegame/samplegame.py:274-280 | toggling flips the caller's flag, toggling twice restores every flag, and the invariant is kept |
| `Rounds.StopKeepsInv` | samplegame/samplegame.py:430-435 | `_game_stop` keeps the invariant and marks only the stored record inactive |
| `Rounds.StartKeepsInv` | samplegame/samplegame.py:283-316 | `gameStart` keeps the invariant, marks the room active, records the start height and clears every participant's ready flag |
| `Rounds.StartEscrows` | samplegame/samplegame.py:306-307 | `gameStart` keeps the balance sum, moves the stake from each participant to the game and touches nobody else |
| `Rounds.DrewKeepsInv` | samplegame/samplegame.py:336-353 | a draw keeps the invariant, appends the dealt card, removes it from the deck and never gives a hand more than five cards |
| `Rounds.BanKeepsLedger` | samplegame/samplegame.py:242-266 | `_ban` changes neither balances, results, hands nor decks |
| `Rounds.PaidKeepsInv` | samplegame/samplegame.py:388-425 | the payout keeps the invariant, leaves the room stopped, picks a loser among its participants and logs exactly one result |
| `Rounds.PaidPot` | samplegame/samplegame.py:410-425 | the payout keeps the balance sum; the game pays exactly twice the stake, all of it to the two players |
| `Rounds.SettleKeepsInv` | samplegame/samplegame.py:388-428 | `calculate` keeps the invariant, and the ban after the payout changes neither balances nor results |
| `Rounds.PaidSucceeds` | samplegame/samplegame.py:388-425 | a room of two, without the game among them, with a non-negative stake and twice the stake in escrow, is paid out |
| `Rounds.SettleSucceeds` | samplegame/samplegame.py:388-428 | under the same conditions all of `calculate`, ban included, succeeds |
| `Rounds.SettleConserves` | samplegame/samplegame.py:388-428 | `calculate` neither creates nor destroys chips: the balance sum is unchanged |
| `Rounds.HitKeepsInv` | samplegame/samplegame.py:324-358 | `hit` keeps the invariant, in particular the five-card limit |
| `Rounds.HitConserves` | samplegame/samplegame.py:324-358 | `hit`, settling or not, keeps the balance sum |
| `Rounds.FixKeepsPlayer` | samplegame/samplegame.py:380 | marking a hand fixed keeps it in order |
| `Rounds.FixHandKeepsInv` | samplegame/samplegame.py:378-381 | storing a hand as fixed keeps the invariant |
| `Rounds.FixKeepsInv` | samplegame/samplegame.py:375-386 | `fix` keeps the invariant |
| `Rounds.FixConserves` | samplegame/samplegame.py:375-386 | `fix`, settling or not, keeps the balance sum |
| `Rounds.FixedSettles` | samplegame/samplegame.py:380-385 | a `fix` that completes its room's fixed hands settles the room |
| `Rounds.FixSettlesStoppedRoom` | samplegame/samplegame.py:375-386 | `fix` checks neither membership nor `active`: in a stopped room whose other hand is fixed, it settles again and the game pays a second pot |
| `Game.NewRoom` | samplegame/samplegame.py:128-129 | `GameRoom(owner, owner, height, prize)` joined by its owner is the inactive record holding only the owner |
| `Game.JoinRecord` | samplegame/samplegame.py:170-185 | a room loaded from its record and joined by `p` is the record with `p` appended |
| `Game.EscapeRecord` | samplegame/samplegame.py:211-227 | a room loaded from its record that `p` escapes succeeds exactly when `p` is a participant, and then is the record without `p`'s first occurrence |
| `Game.ToggleRecord` | samplegame/samplegame.py:309-312 | a room loaded from its record and started or stopped is the record with only `active` changed |
| `Game.NewPlayer` | samplegame/samplegame.py:136-140 | a new participant gets `Deck()`, the fresh deck, and `Hand()`, the empty hand |
| `Game.FixRecord` | samplegame/samplegame.py:377-381 | a hand loaded from its record and marked fixed is the record with only `fix` set |
| `Game.DrawCard` | samplegame/samplegame.py:347-351 | on an empty deck the deal fails; otherwise the card at `entropy mod len` leaves the deck and enters the hand, which is fixed if it held four cards |
| `Game.OwnerBanLoop` | samplegame/samplegame.py:250-253 | the loop that removes participants while iterating over them unseats only participants of the room; in a room of at most two it unseats only the first, because the guest shifts into the position already visited (the crash that follows unseats the guest) |
| `Game.ClearFlags` | samplegame/samplegame.py:315-316 | the loop clears the participants' ready flags as `Rounds.ClearReady` does |
| `Game.SampleGame.constructor` | samplegame/samplegame.py:63-66 | the game, once its token address is accepted, has empty stores beside the chip's balances, and they satisfy the invariant |
| `Game.SampleGame.Revert` | samplegame/samplegame.py:119-121 | `revert` restores every store, the chip balances included |
| `Game.SampleGame.IndexOfRoom` | samplegame/samplegame.py:189-193 | the search returns the index of the room's first list entry, if any |
| `Game.SampleGame.ReplaceListed` | samplegame/samplegame.py:189-195 | only the room's list entry is replaced, when there is one |
| `Game.SampleGame.CreateRoom` | samplegame/samplegame.py:117-140 | `createRoom`, with a stake of 10 unless given, reverts unchanged or commits `Rounds.Created` |
| `Game.SampleGame.JoinRoom` | samplegame/samplegame.py:161-201 | `joinRoom` reverts unchanged or commits `Rounds.Joined` |
| `Game.SampleGame.CrashRoom` | samplegame/samplegame.py:142-158 | the pop-and-put loops leave the list without the room's record and the other entries in order, as `Registry.Crashed` says |
| `Game.SampleGame.Unseat` | samplegame/samplegame.py:255-266 | a guest's removal reverts unchanged or commits `Registry.Unseated` |
| `Game.SampleGame.Escape` | samplegame/samplegame.py:204-240 | `escape` reverts unchanged or commits `Rounds.Escaped` |
| `Game.SampleGame.Ban` | samplegame/samplegame.py:242-266 | `_ban` ends as `Registry.Banned` says |
| `Game.SampleGame.ToggleReady` | samplegame/samplegame.py:274-280 | `toggleReady` reverts unchanged or commits `Rounds.Toggled` |
| `Game.SampleGame.CheckReady` | samplegame/samplegame.py:302-304 | the loop reports the first participant who is not ready |
| `Game.SampleGame.BetAll` | samplegame/samplegame.py:306-307 | the loop moves the stake of each participant in turn to the game |
| `Game.SampleGame.GameStart` | samplegame/samplegame.py:283-316 | `gameStart` reverts unchanged or commits `Rounds.Started` |
| `Game.SampleGame.CheckParticipantsFix` | samplegame/samplegame.py:360-372 | the loop returns `Rounds.RoomFixed` without changing anything |
| `Game.SampleGame.GameStop` | samplegame/samplegame.py:430-435 | `_game_stop` ends as `Rounds.Stopped` says |
| `Game.SampleGame.PayOut` | samplegame/samplegame.py:410-425 | the transfers of each branch pay exactly what `Settlement.Settle` decides, and fail at the first transfer that fails |
| `Game.SampleGame.Calculate` | samplegame/samplegame.py:388-428 | `calculate` ends as `Rounds.Settled` says |
| `Game.SampleGame.Hit` | samplegame/samplegame.py:324-358 | `hit` reverts unchanged or commits `Rounds.Hit` |
| `Game.SampleGame.Fix` | samplegame/samplegame.py:375-386 | `fix` reverts unchanged or commits `Rounds.Fixed` |
| `Game.Install` | samplegame/samplegame.py:63-68 | `on_install(tokenAddress)` reverts exactly when the token address is not a contract's; otherwise it yields a new game bound to that chip contract, with empty stores that satisfy the invariant |

## Left out

- Event logs (`Calculate`, `Hit`, `Fix`, `Transfer`, `Bet`, `Burn`) only emit logs and change no state.
- Read-only views are not modelled: `showGameRoomList`, `showMine`, `getResults`, `getChipBalance`, the game's `balanceOf`, and the chip's `name`, `symbol`, `decimals` and `totalSupply`.
- `mintChips` and `exchange` are not modelled: they receive and send ICX, which is external currency. The chip side of both, `mint` and `burn`, is modelled.
- The SHA-256 hash in `deal` is a foreign function. It is replaced by an `entropy` parameter. This covers both the `deal()` in `deck.py` and the two-argument `deal` that `hit` calls.
- JSON (de)serialisation and `Address.from_string` are not modelled: rooms, hands and cards are records. `_crash_room` removes the list entry by whole-record equality, and the model does the same.
- `on_update` is not modelled: it has no body worth modelling. The chip's `on_install` is `Chips.Chip.constructor`; the game's is `Game.Install`.
- The runtime values `msg.sender`, `tx.origin` and the block height are parameters. `is_contract` is the address kind.
- `samplegame/card/card.py` is a record with JSON printing only. It is modelled as the datatype `Cards.Card`.
- Strings in the result log are modelled as the `Outcome` datatype (winner and loser, or a draw). The formatting is left out.
- `Game.SampleGame.CrashRoom`, `Game.SampleGame.Ban`, `Game.SampleGame.GameStop` and `Game.SampleGame.Calculate` do not promise an unchanged state on failure. They are internal, and a failure in them reverts the whole enclosing transaction.
- `Game.SampleGame.CreateRoom`, `JoinRoom`, `Escape`, `ToggleReady`, `GameStart`, `Hit` and `Fix` do not restate `Registry.Inv` in their own contracts. Each is proved equal to its function in `Rounds`, and that function is proved to keep the invariant (`Rounds.CreateKeepsInv` … `Rounds.FixKeepsInv`).
- Integer width: ICON integers are unbounded Python integers, and so are the model's. No wrap-around exists to model.
