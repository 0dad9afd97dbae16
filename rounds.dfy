/**
 * The game contract's external operations and its settlement, as
 * functions from the stores before a transaction to the stores after it
 * or the reason it reverts, and the invariant each of them keeps.
 */
module Rounds {
  import opened Icon
  import opened Seqs
  import opened Cards
  import opened Hands
  import opened Decks
  import opened GameRooms
  import opened Ledger
  import opened Chips
  import opened Settlement
  import opened Registry

  /** `createRoom(prize)` by `sender` at block `height`. */
  function Created(s: Stores, sender: Address, height: int, prize: int): Result<Stores, GameError>
  {
    if sender in s.inGameRoom then Failure(AlreadyInRoom)
    else if Bal(s.balances, sender) < prize then Failure(InsufficientChips)
    else
      var rec := RoomRecord(sender, sender, height, prize, [sender], false);
      Success(s.(
        gameRoom := s.gameRoom[sender := rec],
        roomList := s.roomList + [rec],
        inGameRoom := s.inGameRoom[sender := sender],
        decks := s.decks[sender := FreshDeck()],
        hands := s.hands[sender := EmptyHand]))
  }

  /** `joinRoom(id)` by `sender`. */
  function Joined(s: Stores, sender: Address, id: Address): Result<Stores, GameError>
  {
    if id !in s.gameRoom then Failure(RoomNotFound)
    else if sender in s.inGameRoom then Failure(AlreadyInRoom)
    else
      var room := s.gameRoom[id];
      if Bal(s.balances, sender) < room.prizePerGame then Failure(InsufficientChips)
      else if |room.participants| > 1 then Failure(RoomFull)
      else
        var rec := room.(participants := room.participants + [sender]);
        Success(s.(
          inGameRoom := s.inGameRoom[sender := id],
          gameRoom := s.gameRoom[id := rec],
          roomList := ReplaceById(s.roomList, rec),
          decks := s.decks[sender := FreshDeck()],
          hands := s.hands[sender := EmptyHand]))
  }

  /**
   * `escape()` by `sender`: a guest is unseated; an owner alone crashes the
   * room, after which the list entry search finds nothing to replace.
   */
  function Escaped(s: Stores, sender: Address): Result<Stores, GameError>
  {
    if sender !in s.inGameRoom then Failure(NotInRoom)
    else
      var id := s.inGameRoom[sender];
      if id !in s.gameRoom then Failure(MissingRecord)
      else
        var room := s.gameRoom[id];
        if room.active then Failure(GameActive)
        else if room.owner == sender then
          if |room.participants| != 1 then Failure(OwnerNotAlone)
          else if sender !in room.participants then Failure(NotParticipant)
          else
            var left := room.(participants := RemoveFirst(room.participants, sender));
            match Crashed(s, id)
            case Failure(e) => Failure(e)
            case Success(t) => Success(t.(
              roomList := ReplaceById(t.roomList, left),
              inGameRoom := t.inGameRoom - {sender}))
        else Unseated(s, id, sender)
  }

  /** `toggleReady()` by `sender`. */
  function Toggled(s: Stores, sender: Address): Result<Stores, GameError>
  {
    if sender !in s.inGameRoom then Failure(NotInRoom)
    else Success(s.(ready := s.ready[sender := !ReadyOf(s.ready, sender)]))
  }

  /** The first participant whose ready flag is not set. */
  function FirstNotReady(participants: seq<Address>, ready: map<Address, bool>): (r: Option<Address>)
    ensures r.None? <==> forall p :: p in participants ==> ReadyOf(ready, p)
    ensures r.Some? ==> r.value in participants && !ReadyOf(ready, r.value)
  {
    if participants == [] then None
    else if !ReadyOf(ready, participants[0]) then Some(participants[0])
    else FirstNotReady(participants[1..], ready)
  }

  /** The first participant found not ready by a scan from the front is the one named. */
  lemma {:induction false} FirstNotReadyAt(participants: seq<Address>, ready: map<Address, bool>, i: nat)
    requires i < |participants| && !ReadyOf(ready, participants[i])
    requires forall j :: 0 <= j < i ==> ReadyOf(ready, participants[j])
    ensures FirstNotReady(participants, ready) == Some(participants[i])
  {
    if i > 0 {
      FirstNotReadyAt(participants[1..], ready, i - 1);
    }
  }

  /** The ready flags after `ready[p] = False` for each participant in turn. */
  function ClearReady(ready: map<Address, bool>, participants: seq<Address>): (r: map<Address, bool>)
    ensures forall p :: p in participants ==> !ReadyOf(r, p)
    ensures forall a :: a !in participants ==> ReadyOf(r, a) == ReadyOf(ready, a)
    decreases |participants|
  {
    if participants == [] then ready
    else ClearReady(ready[participants[0] := false], participants[1..])
  }

  /**
   * `gameStart()` by `sender` at block `height`: each participant's stake
   * is bet to the game contract `game`, the record is marked active, the
   * start height recorded and every ready flag cleared.
   */
  function Started(s: Stores, sender: Address, height: int, game: Address): Result<Stores, GameError>
  {
    if sender !in s.inGameRoom then Failure(NotInRoom)
    else
      var id := s.inGameRoom[sender];
      if id !in s.gameRoom then Failure(MissingRecord)
      else
        var room := s.gameRoom[id];
        if sender != room.owner then Failure(NotOwner)
        else if room.active then Failure(AlreadyActive)
        else if |room.participants| < 2 then Failure(NotEnoughPlayers)
        else match FirstNotReady(room.participants, s.ready)
          case Some(p) => Failure(NotReady(p))
          case None => Success(s.(
            balances := Escrowed(s.balances, room.participants, game, room.prizePerGame),
            gameRoom := s.gameRoom[id := room.(active := true)],
            startHeight := s.startHeight[id := height],
            ready := ClearReady(s.ready, room.participants)))
  }

  /**
   * `_check_participants_fix`: whether every participant's hand is fixed,
   * reading the hands in participant order and stopping at the first one
   * that is not.
   */
  function AllFixed(participants: seq<Address>, hands: map<Address, HandRecord>): (r: Result<bool, GameError>)
    ensures r == Success(true) <==> forall p :: p in participants ==> p in hands && hands[p].fix
    ensures (forall p :: p in participants ==> p in hands) ==> r.Success?
  {
    if participants == [] then Success(true)
    else if participants[0] !in hands then Failure(MissingRecord)
    else if !hands[participants[0]].fix then Success(false)
    else AllFixed(participants[1..], hands)
  }

  /** `_check_participants_fix(id)`. */
  function RoomFixed(s: Stores, id: Address): Result<bool, GameError>
  {
    if id !in s.gameRoom then Failure(MissingRecord)
    else AllFixed(s.gameRoom[id].participants, s.hands)
  }

  /** `_game_stop(id)`: the stored record is marked inactive; the list entry is left alone. */
  function Stopped(s: Stores, id: Address): Result<Stores, GameError>
  {
    if id !in s.gameRoom then Failure(MissingRecord)
    else Success(s.(gameRoom := s.gameRoom[id := s.gameRoom[id].(active := false)]))
  }

  /**
   * The first part of `calculate(id)`: stop the game, compare the first two
   * participants' hands, pay from the game contract `game` and log the
   * outcome; the stores reached and the decision taken.
   */
  function Paid(s: Stores, game: Address, id: Address): Result<(Stores, Verdict), GameError>
  {
    match Stopped(s, id)
    case Failure(e) => Failure(e)
    case Success(t) =>
      var ps := t.gameRoom[id].participants;
      if |ps| < 1 then Failure(TooFewParticipants)
      else if ps[0] !in t.hands then Failure(MissingRecord)
      else if |ps| < 2 then Failure(TooFewParticipants)
      else if ps[1] !in t.hands then Failure(MissingRecord)
      else
        var v := Settle(ps[0], ps[1], t.hands[ps[0]].value, t.hands[ps[1]].value, t.gameRoom[id].prizePerGame);
        match PayAll(t.balances, game, v.payouts)
        case Failure(e) => Failure(ChipReverted(e))
        case Success(paid) => Success((t.(balances := paid, results := t.results + [v.outcome]), v))
  }

  /** `calculate(id)`: settle, then ban the loser if what is left to them is below the stake. */
  function Settled(s: Stores, game: Address, id: Address): Result<Stores, GameError>
  {
    match Paid(s, game, id)
    case Failure(e) => Failure(e)
    case Success(r) =>
      var u := r.0;
      var loser := r.1.loser;
      if loser.Some? && u.gameRoom[id].prizePerGame > Bal(u.balances, loser.value) then Banned(u, id, loser.value)
      else Success(u)
  }

  /**
   * Whether a hit or a fix settles the round: every hand is fixed, the
   * drawn hand busted, or the round has run past the timeout.
   */
  predicate SettleDue(allFixed: bool, busted: bool, height: int, start: int)
  {
    allFixed || busted || height - start > Timeout
  }

  /** The stores after `hit` has drawn `deck[k]` into `sender`'s hand. */
  function Drew(s: Stores, sender: Address, k: nat): Stores
    requires sender in s.hands && sender in s.decks && k < |s.decks[sender]|
  {
    var h := s.hands[sender];
    var d := s.decks[sender];
    s.(hands := s.hands[sender := Drawn(h.(fix := h.fix || |h.cards| == 4), d[k])],
       decks := s.decks[sender := RemoveAt(d, k)])
  }

  /**
   * `hit()` by `sender` at block `height` with dealing entropy `entropy`:
   * a hand holding four cards is fixed as it draws its fifth; then the
   * round is settled if it is due.
   */
  function Hit(s: Stores, sender: Address, height: int, entropy: nat, game: Address): Result<Stores, GameError>
  {
    if sender !in s.inGameRoom then Failure(NotInRoom)
    else
      var id := s.inGameRoom[sender];
      if id !in s.gameRoom then Failure(MissingRecord)
      else if !s.gameRoom[id].active then Failure(RoomInactive)
      else if sender !in s.decks || sender !in s.hands then Failure(MissingRecord)
      else if s.hands[sender].fix then Failure(AlreadyFixed)
      else if s.decks[sender] == [] then Failure(EmptyDeck)
      else
        var t := Drew(s, sender, entropy % |s.decks[sender]|);
        match RoomFixed(t, id)
        case Failure(e) => Failure(e)
        case Success(all) =>
          if SettleDue(all, t.hands[sender].value > BustLimit, height, StartOf(t.startHeight, id)) then Settled(t, game, id)
          else Success(t)
  }

  /**
   * `fix()` by `sender` at block `height`: the hand is fixed whether or not
   * its owner sits in a room or a game runs; a caller seated nowhere makes
   * the room lookup fail.
   */
  function Fixed(s: Stores, sender: Address, height: int, game: Address): Result<Stores, GameError>
  {
    if sender !in s.hands then Failure(MissingRecord)
    else
      var t := s.(hands := s.hands[sender := s.hands[sender].(fix := true)]);
      if sender !in t.inGameRoom then Failure(MissingRecord)
      else
        var id := t.inGameRoom[sender];
        match RoomFixed(t, id)
        case Failure(e) => Failure(e)
        case Success(all) =>
          if SettleDue(all, false, height, StartOf(t.startHeight, id)) then Settled(t, game, id)
          else Success(t)
  }

  /** Every stored room's owner sits in it. */
  lemma OwnerSeated(s: Stores, id: Address)
    requires Inv(s) && id in s.gameRoom
    ensures id in s.gameRoom[id].participants && id in s.inGameRoom && s.inGameRoom[id] == id
  {
    assert RoomOk(id, s.gameRoom[id]);
    assert s.gameRoom[id].participants[0] == id;
  }

  /** No room is keyed by an address seated nowhere. */
  lemma UnseatedOwnsNoRoom(s: Stores, a: Address)
    requires Inv(s) && a !in s.inGameRoom
    ensures a !in s.gameRoom
  {
    if a in s.gameRoom {
      OwnerSeated(s, a);
    }
  }

  /** Adding a new room for `a`, seated nowhere, with a fresh hand and deck keeps the invariant. */
  lemma AddRoomKeepsInv(s: Stores, a: Address, rec: RoomRecord, t: Stores)
    requires Inv(s) && a !in s.inGameRoom
    requires rec.owner == a && rec.id == a && rec.participants == [a] && !rec.active
    requires t == s.(
        gameRoom := s.gameRoom[a := rec],
        roomList := s.roomList + [rec],
        inGameRoom := s.inGameRoom[a := a],
        decks := s.decks[a := FreshDeck()],
        hands := s.hands[a := EmptyHand])
    ensures Inv(t)
  {
    UnseatedOwnsNoRoom(s, a);
    assert RoomOk(a, rec);
    PutKeepsRoomsOk(s.gameRoom, rec);
    AddKeepsMirrored(s.gameRoom, s.roomList, rec);
    AddKeepsOccupancy(s.inGameRoom, s.gameRoom, a, rec);
    NewPlayerOk();
    PutKeepsPlayersOk(s.hands, s.decks, a, EmptyHand, FreshDeck());
  }

  /** Every participant of a stored room sits in it and has a hand. */
  lemma ParticipantsSeated(s: Stores, id: Address)
    requires Inv(s) && id in s.gameRoom
    ensures forall p :: p in s.gameRoom[id].participants ==> p in s.inGameRoom && s.inGameRoom[p] == id && p in s.hands
  {
    assert Occupancy(s.inGameRoom, s.gameRoom);
    assert SeatedHaveHands(s.inGameRoom, s.hands);
  }

  /**
   * `createRoom` keeps the invariant and seats its caller in a new room of
   * their own, so a second `createRoom` by the same caller fails.
   */
  lemma CreateKeepsInv(s: Stores, sender: Address, height: int, prize: int)
    requires Inv(s) && Created(s, sender, height, prize).Success?
    ensures var t := Created(s, sender, height, prize).value;
      && Inv(t)
      && sender in t.inGameRoom && t.inGameRoom[sender] == sender
      && Created(t, sender, height, prize) == Failure(AlreadyInRoom)
  {
    var rec := RoomRecord(sender, sender, height, prize, [sender], false);
    AddRoomKeepsInv(s, sender, rec, Created(s, sender, height, prize).value);
  }

  /**
   * Seating `a`, seated nowhere, second in a room holding its owner alone,
   * with a fresh hand and deck, keeps the invariant.
   */
  lemma SeatKeepsInv(s: Stores, a: Address, id: Address, rec: RoomRecord, t: Stores)
    requires Inv(s) && a !in s.inGameRoom && id in s.gameRoom && |s.gameRoom[id].participants| <= 1
    requires rec == s.gameRoom[id].(participants := s.gameRoom[id].participants + [a])
    requires t == s.(
        inGameRoom := s.inGameRoom[a := id],
        gameRoom := s.gameRoom[id := rec],
        roomList := ReplaceById(s.roomList, rec),
        decks := s.decks[a := FreshDeck()],
        hands := s.hands[a := EmptyHand])
    ensures Inv(t) && rec.participants == [id, a]
  {
    var room := s.gameRoom[id];
    OwnerSeated(s, id);
    assert RoomOk(id, room);
    assert room.participants == [id];
    assert rec.participants == [id] + [a] == [id, a];
    assert a != id;
    assert RoomOk(id, rec);
    PutKeepsRoomsOk(s.gameRoom, rec);
    ReplaceKeepsMirrored(s.gameRoom, s.roomList, rec);
    JoinKeepsOccupancy(s.inGameRoom, s.gameRoom, id, a);
    NewPlayerOk();
    PutKeepsPlayersOk(s.hands, s.decks, a, EmptyHand, FreshDeck());
  }

  /**
   * `joinRoom` keeps the invariant: the room had its owner alone, and now
   * holds the owner and the caller, who sits in it.
   */
  lemma JoinKeepsInv(s: Stores, sender: Address, id: Address)
    requires Inv(s) && Joined(s, sender, id).Success?
    ensures var t := Joined(s, sender, id).value;
      && Inv(t)
      && t.gameRoom[id].participants == [id, sender]
      && sender in t.inGameRoom && t.inGameRoom[sender] == id
  {
    var room := s.gameRoom[id];
    var rec := room.(participants := room.participants + [sender]);
    SeatKeepsInv(s, sender, id, rec, Joined(s, sender, id).value);
  }

  /**
   * An owner alone escaping: the room is crashed, and the list entry search
   * and the caller's unseating that follow change nothing more.
   */
  lemma OwnerEscapeIsCrash(s: Stores, sender: Address)
    requires Inv(s) && sender in s.inGameRoom
    requires var room := s.gameRoom[s.inGameRoom[sender]];
      !room.active && room.owner == sender && |room.participants| == 1
    ensures Escaped(s, sender) == Crashed(s, s.inGameRoom[sender])
    ensures Escaped(s, sender).Success?
  {
    var id := s.inGameRoom[sender];
    var room := s.gameRoom[id];
    assert sender in room.participants;
    assert Crashed(s, id).Success? && !Listed(Crashed(s, id).value.roomList, id)
        && sender !in Crashed(s, id).value.inGameRoom by {
      CrashKeepsInv(s, id);
    }
    var t := Crashed(s, id).value;
    var left := room.(participants := RemoveFirst(room.participants, sender));
    ReplaceUnlisted(t.roomList, left);
    assert t.inGameRoom - {sender} == t.inGameRoom by {
      UnseatAbsent(t.inGameRoom, sender);
    }
  }

  /**
   * `escape` succeeds exactly for a seated caller whose room is not in a
   * game, and who is a guest or the owner alone; it keeps the invariant and
   * leaves the caller seated nowhere.
   */
  lemma EscapeKeepsInv(s: Stores, sender: Address)
    requires Inv(s)
    ensures Escaped(s, sender).Success? <==>
      && sender in s.inGameRoom
      && !s.gameRoom[s.inGameRoom[sender]].active
      && (s.gameRoom[s.inGameRoom[sender]].owner == sender ==> |s.gameRoom[s.inGameRoom[sender]].participants| == 1)
    ensures Escaped(s, sender).Success? ==> Inv(Escaped(s, sender).value) && sender !in Escaped(s, sender).value.inGameRoom
  {
    if sender in s.inGameRoom {
      var id := s.inGameRoom[sender];
      var room := s.gameRoom[id];
      assert sender in room.participants;
      if !room.active {
        if room.owner == sender {
          if |room.participants| == 1 {
            OwnerEscapeIsCrash(s, sender);
            CrashKeepsInv(s, id);
          }
        } else {
          UnseatKeepsInv(s, id, sender);
          assert Escaped(s, sender) == Unseated(s, id, sender);
        }
      }
    }
  }

  /** Toggling twice restores every ready flag; toggling keeps the invariant. */
  lemma ToggleTwice(s: Stores, sender: Address)
    requires Toggled(s, sender).Success?
    ensures Toggled(Toggled(s, sender).value, sender).Success?
    ensures forall a :: ReadyOf(Toggled(Toggled(s, sender).value, sender).value.ready, a) == ReadyOf(s.ready, a)
    ensures ReadyOf(Toggled(s, sender).value.ready, sender) != ReadyOf(s.ready, sender)
    ensures Inv(s) ==> Inv(Toggled(s, sender).value)
  {
  }

  /** `_game_stop` keeps the invariant and marks the stored record inactive. */
  lemma StopKeepsInv(s: Stores, id: Address)
    requires Inv(s) && id in s.gameRoom
    ensures Inv(Stopped(s, id).value)
    ensures Stopped(s, id).value.gameRoom[id] == s.gameRoom[id].(active := false)
  {
    var rec := s.gameRoom[id].(active := false);
    var t := Stopped(s, id).value;
    assert t == s.(gameRoom := s.gameRoom[id := rec]);
    assert RoomOk(id, s.gameRoom[id]);
    assert RoomOk(id, rec);
    PutKeepsRoomsOk(s.gameRoom, rec);
    ToggleKeepsMirrored(s.gameRoom, s.roomList, id, false);
    SameSeatsKeepOccupancy(s.inGameRoom, s.gameRoom, rec);
  }

  /**
   * `gameStart` keeps the invariant: the room is now in a game with the
   * same participants, every participant's ready flag is cleared and the
   * start height recorded.
   */
  lemma StartKeepsInv(s: Stores, sender: Address, height: int, game: Address)
    requires Inv(s) && Started(s, sender, height, game).Success?
    ensures var t := Started(s, sender, height, game).value;
      var id := s.inGameRoom[sender];
      && Inv(t)
      && t.gameRoom[id] == s.gameRoom[id].(active := true)
      && StartOf(t.startHeight, id) == height
      && (forall p :: p in s.gameRoom[id].participants ==> !ReadyOf(t.ready, p))
  {
    var id := s.inGameRoom[sender];
    var room := s.gameRoom[id];
    var rec := room.(active := true);
    var t := Started(s, sender, height, game).value;
    assert t.gameRoom == s.gameRoom[id := rec];
    assert t.roomList == s.roomList && t.inGameRoom == s.inGameRoom;
    assert t.hands == s.hands && t.decks == s.decks;
    assert RoomOk(id, room);
    assert RoomOk(id, rec);
    PutKeepsRoomsOk(s.gameRoom, rec);
    ToggleKeepsMirrored(s.gameRoom, s.roomList, id, true);
    SameSeatsKeepOccupancy(s.inGameRoom, s.gameRoom, rec);
  }

  /** The ledger after `gameStart` is the participants' stakes escrowed in turn. */
  lemma StartedEscrowed(s: Stores, sender: Address, height: int, game: Address)
    requires Started(s, sender, height, game).Success?
    ensures var room := s.gameRoom[s.inGameRoom[sender]];
      Started(s, sender, height, game).value.balances == Escrowed(s.balances, room.participants, game, room.prizePerGame)
  {
    match FirstNotReady(s.gameRoom[s.inGameRoom[sender]].participants, s.ready)
    case None =>
  }

  /**
   * `gameStart` only moves chips: each participant's stake goes to the game
   * contract `game`, and the sum of all balances is unchanged.
   */
  lemma StartEscrows(s: Stores, sender: Address, height: int, game: Address)
    requires Inv(s) && Started(s, sender, height, game).Success?
    ensures var t := Started(s, sender, height, game).value;
      var room := s.gameRoom[s.inGameRoom[sender]];
      && Total(t.balances) == Total(s.balances)
      && (game !in room.participants ==>
            && Bal(t.balances, game) == Bal(s.balances, game) + |room.participants| * room.prizePerGame
            && (forall p :: p in room.participants ==> Bal(t.balances, p) == Bal(s.balances, p) - room.prizePerGame)
            && (forall a :: a != game && a !in room.participants ==> Bal(t.balances, a) == Bal(s.balances, a)))
  {
    var id := s.inGameRoom[sender];
    var room := s.gameRoom[id];
    StartedEscrowed(s, sender, height, game);
    EscrowedConserves(s.balances, room.participants, game, room.prizePerGame);
    if game !in room.participants {
      assert RoomOk(id, room);
      EscrowedMoves(s.balances, room.participants, game, room.prizePerGame);
    }
  }

  /**
   * Drawing into a hand that is not fixed keeps the invariant: the hand
   * gains exactly the dealt card and never exceeds five cards, and the card
   * leaves the deck.
   */
  lemma DrewKeepsInv(s: Stores, sender: Address, k: nat)
    requires Inv(s) && sender in s.hands && !s.hands[sender].fix && k < |s.decks[sender]|
    ensures var t := Drew(s, sender, k);
      && Inv(t)
      && t.hands[sender].cards == s.hands[sender].cards + [s.decks[sender][k]]
      && |t.hands[sender].cards| <= 5
      && t.decks[sender] == RemoveAt(s.decks[sender], k)
  {
    var h := s.hands[sender];
    var d := s.decks[sender];
    var h' := Drawn(h.(fix := h.fix || |h.cards| == 4), d[k]);
    var t := Drew(s, sender, k);
    assert t == s.(hands := s.hands[sender := h'], decks := s.decks[sender := RemoveAt(d, k)]);
    assert PlayerOk(h, d);
    DrawKeepsPlayer(h, d, k);
    PutKeepsPlayersOk(s.hands, s.decks, sender, h', RemoveAt(d, k));
  }

  /** Banning touches only the room registry, the room list and the seating. */
  lemma BanKeepsLedger(s: Stores, id: Address, p: Address)
    requires Banned(s, id, p).Success?
    ensures var t := Banned(s, id, p).value;
      t.balances == s.balances && t.results == s.results && t.hands == s.hands && t.decks == s.decks
  {
  }

  /**
   * The payout part of `calculate` keeps the invariant: the room is stored
   * stopped, the loser (if any) is one of its participants, and exactly one
   * outcome is logged.
   */
  lemma PaidKeepsInv(s: Stores, game: Address, id: Address)
    requires Inv(s) && Paid(s, game, id).Success?
    ensures var u := Paid(s, game, id).value.0;
      var loser := Paid(s, game, id).value.1.loser;
      && Inv(u)
      && u.gameRoom[id] == s.gameRoom[id].(active := false)
      && (loser.Some? ==> loser.value in s.gameRoom[id].participants)
      && u.results == s.results + [Paid(s, game, id).value.1.outcome]
  {
    StopKeepsInv(s, id);
    var t := Stopped(s, id).value;
    var room := t.gameRoom[id];
    var first := room.participants[0];
    var second := room.participants[1];
    SettlePaysPot(first, second, t.hands[first].value, t.hands[second].value, room.prizePerGame);
  }

  /**
   * The chips moved by the payout part of `calculate` on a stopped room of
   * two: the game contract pays exactly twice the stake, all of it to the
   * two participants, and the balance sum is unchanged.
   */
  lemma PaidPot(s: Stores, game: Address, id: Address)
    requires Inv(s) && Paid(s, game, id).Success?
    ensures var u := Paid(s, game, id).value.0;
      var room := s.gameRoom[id];
      var first := room.participants[0];
      var second := room.participants[1];
      && Total(u.balances) == Total(s.balances)
      && (game != first && game != second ==>
            && Bal(u.balances, game) == Bal(s.balances, game) - 2 * room.prizePerGame
            && Bal(u.balances, first) + Bal(u.balances, second) == Bal(s.balances, first) + Bal(s.balances, second) + 2 * room.prizePerGame
            && forall a :: a != game && a != first && a != second ==> Bal(u.balances, a) == Bal(s.balances, a))
  {
    var t := Stopped(s, id).value;
    var room := t.gameRoom[id];
    assert RoomOk(id, s.gameRoom[id]);
    var first := room.participants[0];
    var second := room.participants[1];
    var v := Settle(first, second, t.hands[first].value, t.hands[second].value, room.prizePerGame);
    SettlePaysPot(first, second, t.hands[first].value, t.hands[second].value, room.prizePerGame);
    PayAllMoves(t.balances, game, v.payouts);
  }

  /**
   * `calculate` keeps the invariant; its ban, when there is one, falls on
   * a participant of the stopped room and leaves the ledger and the log
   * as paid.
   */
  lemma SettleKeepsInv(s: Stores, game: Address, id: Address)
    requires Inv(s) && Settled(s, game, id).Success?
    ensures Inv(Settled(s, game, id).value)
    ensures Settled(s, game, id).value.balances == Paid(s, game, id).value.0.balances
    ensures Settled(s, game, id).value.results == Paid(s, game, id).value.0.results
  {
    PaidKeepsInv(s, game, id);
    var u := Paid(s, game, id).value.0;
    var v := Paid(s, game, id).value.1;
    var room := u.gameRoom[id];
    StopKeepsInv(s, id);
    var t := Stopped(s, id).value;
    var first := t.gameRoom[id].participants[0];
    var second := t.gameRoom[id].participants[1];
    SettlePaysPot(first, second, t.hands[first].value, t.hands[second].value, t.gameRoom[id].prizePerGame);
    if v.loser.Some? && room.prizePerGame > Bal(u.balances, v.loser.value) {
      assert v.loser.value in room.participants;
      BanKeepsInv(u, id, v.loser.value);
      BanKeepsLedger(u, id, v.loser.value);
    }
  }

  /**
   * `calculate` creates and destroys no chips: the payouts are transfers
   * and the ban touches no balance.
   */
  lemma SettleConserves(s: Stores, game: Address, id: Address)
    requires Settled(s, game, id).Success?
    ensures Total(Settled(s, game, id).value.balances) == Total(s.balances)
  {
    var t := Stopped(s, id).value;
    var ps := t.gameRoom[id].participants;
    var v := Settle(ps[0], ps[1], t.hands[ps[0]].value, t.hands[ps[1]].value, t.gameRoom[id].prizePerGame);
    PayAllMoves(t.balances, game, v.payouts);
    var u := Paid(s, game, id).value.0;
    var loser := Paid(s, game, id).value.1.loser;
    if loser.Some? && u.gameRoom[id].prizePerGame > Bal(u.balances, loser.value) {
      BanKeepsLedger(u, id, loser.value);
    }
  }

  /**
   * The payout part of `calculate` on a stored room of two that does not
   * include the game contract, with a non-negative stake and at least twice
   * the stake in escrow, succeeds.
   */
  lemma PaidSucceeds(s: Stores, game: Address, id: Address)
    requires Inv(s) && id in s.gameRoom
    requires |s.gameRoom[id].participants| == 2 && game !in s.gameRoom[id].participants
    requires s.gameRoom[id].prizePerGame >= 0 && Bal(s.balances, game) >= 2 * s.gameRoom[id].prizePerGame
    ensures Paid(s, game, id).Success?
  {
    var room := s.gameRoom[id];
    var t := Stopped(s, id).value;
    assert t == s.(gameRoom := s.gameRoom[id := room.(active := false)]);
    assert RoomOk(id, room);
    var first := room.participants[0];
    var second := room.participants[1];
    ParticipantsSeated(s, id);
    assert first in t.hands && second in t.hands;
    var v := Settle(first, second, t.hands[first].value, t.hands[second].value, room.prizePerGame);
    SettlePaysPot(first, second, t.hands[first].value, t.hands[second].value, room.prizePerGame);
    PayAllSucceeds(t.balances, game, v.payouts);
    assert PayAll(t.balances, game, v.payouts).Success?;
  }


  /** Under the same conditions the whole of `calculate`, ban included, succeeds. */
  lemma SettleSucceeds(s: Stores, game: Address, id: Address)
    requires Inv(s) && id in s.gameRoom
    requires |s.gameRoom[id].participants| == 2 && game !in s.gameRoom[id].participants
    requires s.gameRoom[id].prizePerGame >= 0 && Bal(s.balances, game) >= 2 * s.gameRoom[id].prizePerGame
    ensures Settled(s, game, id).Success?
  {
    PaidSucceeds(s, game, id);
    PaidKeepsInv(s, game, id);
    var u := Paid(s, game, id).value.0;
    var loser := Paid(s, game, id).value.1.loser;
    if loser.Some? && u.gameRoom[id].prizePerGame > Bal(u.balances, loser.value) {
      BanKeepsInv(u, id, loser.value);
      assert Settled(s, game, id) == Banned(u, id, loser.value);
    } else {
      assert Settled(s, game, id) == Success(u);
    }
  }

  /**
   * `hit` keeps the invariant, so in particular no hand ever holds more
   * than five cards.
   */
  lemma HitKeepsInv(s: Stores, sender: Address, height: int, entropy: nat, game: Address)
    requires Inv(s) && Hit(s, sender, height, entropy, game).Success?
    ensures Inv(Hit(s, sender, height, entropy, game).value)
  {
    var id := s.inGameRoom[sender];
    var k := entropy % |s.decks[sender]|;
    DrewKeepsInv(s, sender, k);
    var t := Drew(s, sender, k);
    var all := RoomFixed(t, id).value;
    if SettleDue(all, t.hands[sender].value > BustLimit, height, StartOf(t.startHeight, id)) {
      assert Hit(s, sender, height, entropy, game) == Settled(t, game, id);
      SettleKeepsInv(t, game, id);
    } else {
      assert Hit(s, sender, height, entropy, game) == Success(t);
    }
  }

  /** `hit` creates and destroys no chips, whether or not it settles the round. */
  lemma HitConserves(s: Stores, sender: Address, height: int, entropy: nat, game: Address)
    requires Hit(s, sender, height, entropy, game).Success?
    ensures Total(Hit(s, sender, height, entropy, game).value.balances) == Total(s.balances)
  {
    var id := s.inGameRoom[sender];
    var t := Drew(s, sender, entropy % |s.decks[sender]|);
    var all := RoomFixed(t, id).value;
    if SettleDue(all, t.hands[sender].value > BustLimit, height, StartOf(t.startHeight, id)) {
      SettleConserves(t, game, id);
    }
  }

  /** Fixing a hand keeps it in order. */
  lemma FixKeepsPlayer(h: HandRecord, deck: seq<Card>)
    requires PlayerOk(h, deck)
    ensures PlayerOk(h.(fix := true), deck)
  {
    assert Consistent(h.(fix := true));
  }

  /** Storing a player's hand as fixed keeps the invariant. */
  lemma FixHandKeepsInv(s: Stores, sender: Address, t: Stores)
    requires Inv(s) && sender in s.hands
    requires t == s.(hands := s.hands[sender := s.hands[sender].(fix := true)])
    ensures Inv(t)
  {
    var h := s.hands[sender].(fix := true);
    assert PlayerOk(s.hands[sender], s.decks[sender]);
    FixKeepsPlayer(s.hands[sender], s.decks[sender]);
    PutKeepsPlayersOk(s.hands, s.decks, sender, h, s.decks[sender]);
    assert s.decks[sender := s.decks[sender]] == s.decks;
  }

  /** `fix` keeps the invariant. */
  lemma FixKeepsInv(s: Stores, sender: Address, height: int, game: Address)
    requires Inv(s) && Fixed(s, sender, height, game).Success?
    ensures Inv(Fixed(s, sender, height, game).value)
  {
    var t := s.(hands := s.hands[sender := s.hands[sender].(fix := true)]);
    FixHandKeepsInv(s, sender, t);
    var id := t.inGameRoom[sender];
    var all := RoomFixed(t, id).value;
    if SettleDue(all, false, height, StartOf(t.startHeight, id)) {
      assert Fixed(s, sender, height, game) == Settled(t, game, id);
      SettleKeepsInv(t, game, id);
    } else {
      assert Fixed(s, sender, height, game) == Success(t);
    }
  }

  /** `fix` creates and destroys no chips, whether or not it settles the round. */
  lemma FixConserves(s: Stores, sender: Address, height: int, game: Address)
    requires Fixed(s, sender, height, game).Success?
    ensures Total(Fixed(s, sender, height, game).value.balances) == Total(s.balances)
  {
    var t := s.(hands := s.hands[sender := s.hands[sender].(fix := true)]);
    var id := t.inGameRoom[sender];
    var all := RoomFixed(t, id).value;
    if SettleDue(all, false, height, StartOf(t.startHeight, id)) {
      SettleConserves(t, game, id);
    }
  }

  /** A `fix` that completes its room's fixed hands settles the room. */
  lemma FixedSettles(s: Stores, sender: Address, height: int, game: Address)
    requires Inv(s) && sender in s.inGameRoom
    requires forall p :: p in s.gameRoom[s.inGameRoom[sender]].participants && p != sender ==> s.hands[p].fix
    ensures Fixed(s, sender, height, game)
         == Settled(s.(hands := s.hands[sender := s.hands[sender].(fix := true)]), game, s.inGameRoom[sender])
  {
    var id := s.inGameRoom[sender];
    var t := s.(hands := s.hands[sender := s.hands[sender].(fix := true)]);
    ParticipantsSeated(s, id);
    assert RoomFixed(t, id) == Success(true);
  }

  /**
   * `fix` does not check that a game is running: once the other
   * participant's hand is fixed, a `fix` in a room whose game is over
   * settles the room again and pays out a second pot from the game
   * contract.
   */
  lemma FixSettlesStoppedRoom(s: Stores, sender: Address, height: int, game: Address)
    requires Inv(s) && sender in s.inGameRoom
    requires var room := s.gameRoom[s.inGameRoom[sender]];
      && !room.active && |room.participants| == 2 && game !in room.participants
      && room.prizePerGame >= 0 && Bal(s.balances, game) >= 2 * room.prizePerGame
      && forall p :: p in room.participants && p != sender ==> s.hands[p].fix
    ensures Fixed(s, sender, height, game).Success?
    ensures var room := s.gameRoom[s.inGameRoom[sender]];
      Bal(Fixed(s, sender, height, game).value.balances, game) == Bal(s.balances, game) - 2 * room.prizePerGame
  {
    var id := s.inGameRoom[sender];
    var t := s.(hands := s.hands[sender := s.hands[sender].(fix := true)]);
    FixHandKeepsInv(s, sender, t);
    FixedSettles(s, sender, height, game);
    SettleSucceeds(t, game, id);
    SettleKeepsInv(t, game, id);
    PaidPot(t, game, id);
  }
}
