/**
 * The game contract itself: its stores as fields, the chip contract it
 * calls, and one method per operation, each proved against the functions
 * of module `Rounds` that say what the operation does to the stores.
 */
module Game {
  import opened Icon
  import opened Seqs
  import opened Cards
  import opened Hands
  import opened Decks
  import opened GameRooms
  import opened Ledger
  import opened Chips
  import opened Settlement
  import opened Registry
  import opened Rounds

  /** The stores a call leaves, or the error it ends with. */
  function Effect(r: Result<(), GameError>, now: Stores): Result<Stores, GameError>
  {
    if r.Success? then Success(now) else Failure(r.error)
  }

  /** `GameRoom(owner, owner, height, prize)` joined by its owner, as `createRoom` stores it. */
  method NewRoom(owner: Address, creationTime: int, prize: int) returns (rec: RoomRecord)
    ensures rec == RoomRecord(owner, owner, creationTime, prize, [owner], false)
  {
    var room := new GameRoom(owner, owner, creationTime, prize);
    room.Join(owner);
    return room.Record();
  }

  /** A stored room loaded into an object, joined by `p`, and written back. */
  method JoinRecord(rec: RoomRecord, p: Address) returns (joined: RoomRecord)
    ensures joined == rec.(participants := rec.participants + [p])
  {
    var room := new GameRoom.FromRecord(rec);
    room.Join(p);
    return room.Record();
  }

  /** A stored room loaded into an object that `p` escapes; `ok` is false when `list.remove` raises. */
  method EscapeRecord(rec: RoomRecord, p: Address) returns (ok: bool, left: RoomRecord)
    ensures ok <==> p in rec.participants
    ensures ok ==> left == rec.(participants := RemoveFirst(rec.participants, p))
  {
    var room := new GameRoom.FromRecord(rec);
    ok := room.Escape(p);
    left := room.Record();
  }

  /** A stored room loaded into an object, started or stopped, and written back. */
  method ToggleRecord(rec: RoomRecord, start: bool) returns (toggled: RoomRecord)
    ensures toggled == rec.(active := start)
  {
    var room := new GameRoom.FromRecord(rec);
    if start {
      room.GameStart();
    } else {
      room.GameStop();
    }
    return room.Record();
  }

  /** The deck and hand a new participant starts with: `Deck()` and `Hand()`. */
  method NewPlayer() returns (deck: seq<Card>, hand: HandRecord)
    ensures deck == FreshDeck() && hand == EmptyHand
  {
    var d := new Deck();
    var h := new Hand();
    return d.deck, h.Record();
  }

  /**
   * The drawing step of `hit`: a hand holding four cards is fixed, a card is
   * dealt from the deck at `entropy` and added to the hand, and the aces are
   * adjusted. Nothing is dealt from an empty deck.
   */
  method DrawCard(cards: seq<Card>, h: HandRecord, entropy: nat) returns (r: Option<(seq<Card>, HandRecord)>)
    ensures cards == [] <==> r.None?
    ensures r.Some? ==>
      var k := entropy % |cards|;
      r.value == (RemoveAt(cards, k), Drawn(h.(fix := h.fix || |h.cards| == 4), cards[k]))
  {
    var deck := new Deck.FromCards(cards);
    var hand := new Hand.FromRecord(h);
    if |hand.cards| == 4 {
      hand.fix := true;
    }
    var card := deck.Deal(entropy);
    if card.None? {
      return None;
    }
    hand.AddCard(card.value);
    hand.AdjustForAce();
    return Some((deck.deck, hand.Record()));
  }

  /** `hand.fix = True` on the hand loaded from its record. */
  method FixRecord(h: HandRecord) returns (fixed: HandRecord)
    ensures fixed == h.(fix := true)
  {
    var hand := new Hand.FromRecord(h);
    hand.fix := true;
    return hand.Record();
  }

  /**
   * The loop of `_ban` when the owner is banned: for each participant, read
   * by position from the list that the loop shrinks, remove the seat and
   * escape the room. The seats removed are some of the record's participants;
   * in a room of at most two only the first participant's seat is removed,
   * since the second moves to the position the loop has already passed.
   */
  method OwnerBanLoop(rec: RoomRecord, occupancy: map<Address, Address>)
    returns (occ: map<Address, Address>, ghost gone: set<Address>)
    ensures forall q :: q in gone ==> q in rec.participants
    ensures occ == occupancy - gone
    ensures |rec.participants| <= 2 ==>
      occ == if rec.participants == [] then occupancy else occupancy - {rec.participants[0]}
  {
    var room := new GameRoom.FromRecord(rec);
    occ, gone := occupancy, {};
    var i := 0;
    while i < |room.participants|
      invariant forall q :: q in room.participants ==> q in rec.participants
      invariant forall q :: q in gone ==> q in rec.participants
      invariant occ == occupancy - gone
      invariant |rec.participants| <= 2 ==>
        || (i == 0 && room.participants == rec.participants && occ == occupancy)
        || (i == 1 && rec.participants != [] && |room.participants| <= 1 && occ == occupancy - {rec.participants[0]})
      decreases |room.participants| - i
    {
      var q := room.participants[i];
      occ, gone := occ - {q}, gone + {q};
      ghost var was := room.participants;
      var ok := room.Escape(q);
      RemoveFirstKeepsOthers(was, q);
      i := i + 1;
    }
  }

  /** The last loop of `gameStart`: `ready[p] = False` for each participant in turn. */
  method ClearFlags(ready: map<Address, bool>, participants: seq<Address>) returns (flags: map<Address, bool>)
    ensures flags == ClearReady(ready, participants)
  {
    flags := ready;
    for i := 0 to |participants|
      invariant ClearReady(flags, participants[i..]) == ClearReady(ready, participants)
    {
      assert participants[i..][1..] == participants[i + 1..];
      flags := flags[participants[i] := false];
    }
  }

  class SampleGame {
    /** The game contract's own address, which holds the escrowed stakes. */
    const address: ContractAddress
    /** The chip contract, whose calls are synchronous and revert with the caller. */
    const chip: Chip

    var gameRoom: map<Address, RoomRecord>
    var roomList: seq<RoomRecord>
    var inGameRoom: map<Address, Address>
    var decks: map<Address, seq<Card>>
    var hands: map<Address, HandRecord>
    var ready: map<Address, bool>
    var startHeight: map<Address, int>
    var results: seq<Outcome>

    /** Every store, with the chip balances. */
    function State(): Stores
      reads this, chip
    {
      Stores(chip.balances, gameRoom, roomList, inGameRoom, decks, hands, ready, startHeight, results)
    }

    /**
     * The stores `on_install` leaves once it has accepted the chip
     * contract: all empty, beside the chip's balances; the invariant holds
     * from the start. `Install` makes the check that may revert.
     */
    constructor (address: ContractAddress, chip: Chip)
      ensures this.address == address && this.chip == chip
      ensures State() == Stores(chip.balances, map[], [], map[], map[], map[], map[], map[], [])
      ensures Inv(State())
    {
      this.address := address;
      this.chip := chip;
      gameRoom := map[];
      roomList := [];
      inGameRoom := map[];
      decks := map[];
      hands := map[];
      ready := map[];
      startHeight := map[];
      results := [];
      new;
      EmptyInv(chip.balances);
    }

    /**
     * The transaction's rollback, done by the runtime when a call reverts:
     * every store, the chip balances included, goes back to `s`.
     */
    method Revert(s: Stores)
      modifies this, chip`balances
      ensures State() == s
    {
      chip.balances := s.balances;
      gameRoom := s.gameRoom;
      roomList := s.roomList;
      inGameRoom := s.inGameRoom;
      decks := s.decks;
      hands := s.hands;
      ready := s.ready;
      startHeight := s.startHeight;
      results := s.results;
    }

    /** The position of the first list entry with room id `id`, searched from the front. */
    method IndexOfRoom(id: Address) returns (index: Option<nat>)
      ensures index == FindById(roomList, id)
    {
      var i := 0;
      while i < |roomList|
        invariant i <= |roomList|
        invariant forall j :: 0 <= j < i ==> roomList[j].id != id
      {
        if roomList[i].id == id {
          return Some(i);
        }
        i := i + 1;
      }
      return None;
    }

    /** Writes `rec` over the first list entry with its room id, if there is one. */
    method ReplaceListed(rec: RoomRecord)
      modifies this
      ensures State() == old(State()).(roomList := ReplaceById(old(roomList), rec))
    {
      var index := IndexOfRoom(rec.id);
      if index.Some? {
        roomList := roomList[index.value := rec];
      }
    }

    /** `createRoom(prize)`, with a stake of 10 unless given, by `sender` at block `height`. */
    method CreateRoom(sender: Address, height: int, prize: int := 10) returns (r: Result<(), GameError>)
      modifies this
      ensures r.Failure? ==> State() == old(State())
      ensures Effect(r, State()) == Created(old(State()), sender, height, prize)
    {
      ghost var before := State();
      if sender in inGameRoom {
        return Failure(AlreadyInRoom);
      }
      var balance := chip.BalanceOf(sender);
      if balance < prize {
        return Failure(InsufficientChips);
      }
      var rec := NewRoom(sender, height, prize);
      var deck, hand := NewPlayer();
      gameRoom, roomList, inGameRoom, decks, hands :=
        gameRoom[sender := rec], roomList + [rec], inGameRoom[sender := sender],
        decks[sender := deck], hands[sender := hand];
      assert State() == Created(before, sender, height, prize).value;
      return Success(());
    }

    /** `joinRoom(id)` by `sender`. */
    method JoinRoom(sender: Address, id: Address) returns (r: Result<(), GameError>)
      modifies this
      ensures r.Failure? ==> State() == old(State())
      ensures Effect(r, State()) == Joined(old(State()), sender, id)
    {
      ghost var before := State();
      if id !in gameRoom {
        return Failure(RoomNotFound);
      }
      if sender in inGameRoom {
        return Failure(AlreadyInRoom);
      }
      var balance := chip.BalanceOf(sender);
      if balance < gameRoom[id].prizePerGame {
        return Failure(InsufficientChips);
      }
      if |gameRoom[id].participants| > 1 {
        return Failure(RoomFull);
      }
      var rec := JoinRecord(gameRoom[id], sender);
      var deck, hand := NewPlayer();
      inGameRoom, gameRoom, decks, hands :=
        inGameRoom[sender := id], gameRoom[id := rec], decks[sender := deck], hands[sender := hand];
      ReplaceListed(rec);
      assert State() == Joined(before, sender, id).value;
      return Success(());
    }

    /**
     * `_crash_room(id)`: unseat every participant of the stored record,
     * delete the record, then rebuild the list without the entry equal to
     * the record by popping every entry and putting the rest back.
     */
    method CrashRoom(id: Address) returns (r: Result<(), GameError>)
      modifies this
      ensures Effect(r, State()) == Crashed(old(State()), id)
    {
      if id !in gameRoom {
        return Failure(MissingRecord);
      }
      var rec := gameRoom[id];
      var escaping := rec.participants;
      var occ := inGameRoom;
      for i := 0 to |escaping|
        invariant occ == old(inGameRoom) - (set p | p in escaping[..i])
      {
        assert escaping[..i + 1] == escaping[..i] + [escaping[i]];
        occ := occ - {escaping[i]};
      }
      assert escaping[..|escaping|] == escaping;
      inGameRoom := occ;
      gameRoom := gameRoom - {id};
      var kept := roomList;
      if rec !in kept {
        return Failure(NotListed);
      }
      kept := RemoveFirst(kept, rec);
      var stored := roomList;
      for count := 0 to |roomList|
        invariant |stored| == |roomList| - count
      {
        stored := stored[..|stored| - 1];
      }
      for j := 0 to |kept|
        invariant stored == kept[..j]
      {
        stored := stored + [kept[j]];
      }
      assert kept[..|kept|] == kept;
      roomList := stored;
      return Success(());
    }

    /** A guest leaving the room `id`, by `escape` or by `_ban`. */
    method Unseat(id: Address, p: Address) returns (r: Result<(), GameError>)
      modifies this
      ensures r.Failure? ==> State() == old(State())
      ensures Effect(r, State()) == Unseated(old(State()), id, p)
    {
      ghost var before := State();
      if id !in gameRoom {
        return Failure(MissingRecord);
      }
      var ok, left := EscapeRecord(gameRoom[id], p);
      if !ok {
        return Failure(NotParticipant);
      }
      gameRoom, inGameRoom := gameRoom[id := left], inGameRoom - {p};
      ReplaceListed(left);
      assert State() == Unseated(before, id, p).value;
      return Success(());
    }

    /** `escape()` by `sender`. */
    method Escape(sender: Address) returns (r: Result<(), GameError>)
      modifies this, chip`balances
      ensures r.Failure? ==> State() == old(State())
      ensures Effect(r, State()) == Escaped(old(State()), sender)
    {
      var before := State();
      if sender !in inGameRoom {
        return Failure(NotInRoom);
      }
      var id := inGameRoom[sender];
      if id !in gameRoom {
        return Failure(MissingRecord);
      }
      var rec := gameRoom[id];
      if rec.active {
        return Failure(GameActive);
      }
      if rec.owner != sender {
        r := Unseat(id, sender);
        return;
      }
      if |rec.participants| != 1 {
        return Failure(OwnerNotAlone);
      }
      var ok, left := EscapeRecord(rec, sender);
      if !ok {
        return Failure(NotParticipant);
      }
      var crash := CrashRoom(id);
      if crash.Failure? {
        Revert(before);
        return crash;
      }
      ghost var crashed := State();
      ReplaceListed(left);
      inGameRoom := inGameRoom - {sender};
      assert State() == crashed.(roomList := ReplaceById(crashed.roomList, left), inGameRoom := crashed.inGameRoom - {sender});
      return Success(());
    }

    /**
     * `_ban(id, p)`. Banning the owner first walks the participant list while
     * removing from it, so only every other participant is unseated there;
     * the room crash that follows unseats everyone in the stored record.
     */
    method Ban(id: Address, p: Address) returns (r: Result<(), GameError>)
      modifies this
      ensures Effect(r, State()) == Banned(old(State()), id, p)
    {
      if id !in gameRoom {
        return Failure(MissingRecord);
      }
      if gameRoom[id].owner != p {
        r := Unseat(id, p);
        return;
      }
      var occ, gone := OwnerBanLoop(gameRoom[id], inGameRoom);
      ghost var before := old(State());
      inGameRoom := occ;
      CrashAfterUnseating(before, id, gone);
      assert State() == before.(inGameRoom := before.inGameRoom - gone);
      r := CrashRoom(id);
    }

    /** `toggleReady()` by `sender`: an unset flag reads as false. */
    method ToggleReady(sender: Address) returns (r: Result<(), GameError>)
      modifies this
      ensures r.Failure? ==> State() == old(State())
      ensures Effect(r, State()) == Toggled(old(State()), sender)
    {
      if sender !in inGameRoom {
        return Failure(NotInRoom);
      }
      if ReadyOf(ready, sender) {
        ready := ready[sender := false];
      } else {
        ready := ready[sender := true];
      }
      return Success(());
    }

    /** The readiness loop of `gameStart`: the first participant whose flag is not set, if any. */
    method CheckReady(participants: seq<Address>) returns (r: Option<Address>)
      ensures r == FirstNotReady(participants, ready)
    {
      for i := 0 to |participants|
        invariant forall j :: 0 <= j < i ==> ReadyOf(ready, participants[j])
      {
        if !ReadyOf(ready, participants[i]) {
          FirstNotReadyAt(participants, ready, i);
          return Some(participants[i]);
        }
      }
      return None;
    }

    /** The betting loop of `gameStart`: `_bet` of the stake from each participant in turn. */
    method BetAll(participants: seq<Address>, stake: int)
      modifies chip`balances
      ensures chip.balances == Escrowed(old(chip.balances), participants, address, stake)
    {
      for i := 0 to |participants|
        invariant Escrowed(chip.balances, participants[i..], address, stake)
               == Escrowed(old(chip.balances), participants, address, stake)
      {
        assert participants[i..][1..] == participants[i + 1..];
        var bet := chip.Bet(address, participants[i], address, stake);
        assert bet.Success?;
      }
    }

    /** `gameStart()` by `sender` at block `height`. */
    method GameStart(sender: Address, height: int) returns (r: Result<(), GameError>)
      modifies this, chip`balances
      ensures r.Failure? ==> State() == old(State())
      ensures Effect(r, State()) == Started(old(State()), sender, height, address)
    {
      ghost var before := State();
      if sender !in inGameRoom {
        return Failure(NotInRoom);
      }
      var id := inGameRoom[sender];
      if id !in gameRoom {
        return Failure(MissingRecord);
      }
      var rec := gameRoom[id];
      var participants := rec.participants;
      if sender != rec.owner {
        return Failure(NotOwner);
      }
      if rec.active {
        return Failure(AlreadyActive);
      }
      if |participants| < 2 {
        return Failure(NotEnoughPlayers);
      }
      var notReady := CheckReady(participants);
      if notReady.Some? {
        return Failure(NotReady(notReady.value));
      }
      BetAll(participants, rec.prizePerGame);
      var started := ToggleRecord(rec, true);
      var flags := ClearFlags(ready, participants);
      startHeight, gameRoom, ready := startHeight[id := height], gameRoom[id := started], flags;
      assert State() == Started(before, sender, height, address).value;
      return Success(());
    }

    /** `_check_participants_fix(id)`: read each participant's hand in turn until one is not fixed. */
    method CheckParticipantsFix(id: Address) returns (r: Result<bool, GameError>)
      ensures r == RoomFixed(State(), id)
    {
      if id !in gameRoom {
        return Failure(MissingRecord);
      }
      var participants := gameRoom[id].participants;
      for i := 0 to |participants|
        invariant AllFixed(participants[i..], hands) == AllFixed(participants, hands)
      {
        assert participants[i..][1..] == participants[i + 1..];
        if participants[i] !in hands {
          return Failure(MissingRecord);
        }
        if !hands[participants[i]].fix {
          return Success(false);
        }
      }
      return Success(true);
    }

    /** `_game_stop(id)`. */
    method GameStop(id: Address) returns (r: Result<(), GameError>)
      modifies this
      ensures Effect(r, State()) == Stopped(old(State()), id)
    {
      if id !in gameRoom {
        return Failure(MissingRecord);
      }
      var stopped := ToggleRecord(gameRoom[id], false);
      gameRoom := gameRoom[id := stopped];
      return Success(());
    }

    /**
     * `calculate(id)`: stop the game, compare the first two participants'
     * hands, transfer the pot out of the game's balance, log the outcome,
     * and ban the loser if what they hold afterwards is below the stake.
     */
    method Calculate(id: Address) returns (r: Result<(), GameError>)
      modifies this, chip`balances
      ensures Effect(r, State()) == Settled(old(State()), address, id)
    {
      var stop := GameStop(id);
      if stop.Failure? {
        return stop;
      }
      ghost var t := State();
      var room := gameRoom[id];
      var participants := room.participants;
      if |participants| < 1 {
        return Failure(TooFewParticipants);
      }
      var first := participants[0];
      if first !in hands {
        return Failure(MissingRecord);
      }
      if |participants| < 2 {
        return Failure(TooFewParticipants);
      }
      var second := participants[1];
      if second !in hands {
        return Failure(MissingRecord);
      }
      var v1, v2, stake := hands[first].value, hands[second].value, room.prizePerGame;
      var sent := PayOut(first, second, v1, v2, stake);
      if sent.Failure? {
        return Failure(ChipReverted(sent.error));
      }
      var v := Settle(first, second, v1, v2, stake);
      results := results + [v.outcome];
      assert Paid(old(State()), address, id) == Success((State(), v));
      if v.loser.Some? {
        var left := chip.BalanceOf(v.loser.value);
        if stake > left {
          r := Ban(id, v.loser.value);
          return;
        }
      }
      return Success(());
    }

    /**
     * The paying branches of `calculate`: the game transfers twice the stake
     * to the winner, or the stake back to each player on a draw, and stops
     * at the first transfer that fails.
     */
    method PayOut(first: Address, second: Address, v1: int, v2: int, stake: int)
      returns (sent: Result<(), ChipError>)
      modifies chip`balances
      ensures var paid := PayAll(old(chip.balances), address, Settle(first, second, v1, v2, stake).payouts);
        && (paid.Failure? ==> sent == Failure(paid.error))
        && (paid.Success? ==> sent.Success? && chip.balances == paid.value)
    {
      ghost var start := chip.balances;
      if v1 > BustLimit || v2 > BustLimit {
        var winner := if v2 > BustLimit then first else second;
        PayOne(start, address, Payout(winner, stake * 2));
        sent := chip.Transfer(address, winner, stake * 2);
      } else if v1 > v2 {
        PayOne(start, address, Payout(first, stake * 2));
        sent := chip.Transfer(address, first, stake * 2);
      } else if v1 < v2 {
        PayOne(start, address, Payout(second, stake * 2));
        sent := chip.Transfer(address, second, stake * 2);
      } else {
        PayTwo(start, address, Payout(first, stake), Payout(second, stake));
        PayOne(start, address, Payout(first, stake));
        sent := chip.Transfer(address, first, stake);
        if sent.Success? {
          PayOne(chip.balances, address, Payout(second, stake));
          sent := chip.Transfer(address, second, stake);
        }
      }
    }

    /** `hit()` by `sender` at block `height`; `entropy` stands for the deal's hash of timestamp and sender. */
    method Hit(sender: Address, height: int, entropy: nat) returns (r: Result<(), GameError>)
      modifies this, chip`balances
      ensures r.Failure? ==> State() == old(State())
      ensures Effect(r, State()) == Rounds.Hit(old(State()), sender, height, entropy, address)
    {
      var before := State();
      if sender !in inGameRoom {
        return Failure(NotInRoom);
      }
      var id := inGameRoom[sender];
      if id !in gameRoom {
        return Failure(MissingRecord);
      }
      if !gameRoom[id].active {
        return Failure(RoomInactive);
      }
      if sender !in decks || sender !in hands {
        return Failure(MissingRecord);
      }
      if hands[sender].fix {
        return Failure(AlreadyFixed);
      }
      var drawn := DrawCard(decks[sender], hands[sender], entropy);
      if drawn.None? {
        return Failure(EmptyDeck);
      }
      var (deck, hand) := drawn.value;
      decks, hands := decks[sender := deck], hands[sender := hand];
      assert State() == Drew(before, sender, entropy % |before.decks[sender]|);
      var all := CheckParticipantsFix(id);
      if all.Failure? {
        Revert(before);
        return Failure(all.error);
      }
      if all.value || hand.value > BustLimit || height - StartOf(startHeight, id) > Timeout {
        r := Calculate(id);
        if r.Failure? {
          Revert(before);
        }
        return;
      }
      return Success(());
    }

    /** `fix()` by `sender` at block `height`. */
    method Fix(sender: Address, height: int) returns (r: Result<(), GameError>)
      modifies this, chip`balances
      ensures r.Failure? ==> State() == old(State())
      ensures Effect(r, State()) == Fixed(old(State()), sender, height, address)
    {
      var before := State();
      if sender !in hands {
        return Failure(MissingRecord);
      }
      var fixed := FixRecord(hands[sender]);
      hands := hands[sender := fixed];
      if sender !in inGameRoom {
        Revert(before);
        return Failure(MissingRecord);
      }
      var id := inGameRoom[sender];
      var all := CheckParticipantsFix(id);
      if all.Failure? {
        Revert(before);
        return Failure(all.error);
      }
      if all.value || height - StartOf(startHeight, id) > Timeout {
        r := Calculate(id);
        if r.Failure? {
          Revert(before);
        }
        return;
      }
      return Success(());
    }
  }

  /**
   * `on_install(tokenAddress)` of the game contract deployed at `address`,
   * with `chip` the contract at the token address: the install reverts
   * unless that address is a contract's.
   */
  method Install(address: ContractAddress, chip: Chip) returns (r: Result<SampleGame, GameError>)
    ensures r.Failure? <==> !chip.address.IsContract()
    ensures r.Failure? ==> r.error == NotContractToken
    ensures r.Success? ==> fresh(r.value) && r.value.address == address && r.value.chip == chip
    ensures r.Success? ==>
      && r.value.State() == Stores(chip.balances, map[], [], map[], map[], map[], map[], map[], [])
      && Inv(r.value.State())
  {
    if !chip.address.IsContract() {
      return Failure(NotContractToken);
    }
    var game := new SampleGame(address, chip);
    return Success(game);
  }
}
