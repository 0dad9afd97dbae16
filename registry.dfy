/**
 * The game contract's stores and what its operations do to them, as
 * functions: the room registry keyed by room id, the room list that mirrors
 * it for display, who sits in which room, every player's deck and hand,
 * ready flags, start heights and the result log, with the chip balances
 * alongside (the calls into the chip contract are synchronous and revert
 * together with the game's own writes).
 */
module Registry {
  import opened Icon
  import opened Seqs
  import opened Cards
  import opened Hands
  import opened Decks
  import opened GameRooms
  import opened Ledger
  import opened Chips
  import opened Settlement

  /** Why a game operation reverts. */
  datatype GameError =
    | AlreadyInRoom          // the caller is seated in a room already
    | InsufficientChips      // the caller holds less than the stake
    | RoomNotFound           // joinRoom names a room that does not exist
    | RoomFull               // the room has two participants
    | NotInRoom              // the caller is seated nowhere
    | GameActive             // escape from a room whose game is running
    | OwnerNotAlone          // the owner tries to leave a room with a guest
    | NotOwner               // gameStart by someone other than the owner
    | AlreadyActive          // gameStart while a game is running
    | NotEnoughPlayers       // gameStart with fewer than two participants
    | NotReady(who: Address) // gameStart while a participant is not ready
    | RoomInactive           // hit while no game is running
    | AlreadyFixed           // hit on a fixed hand
    | EmptyDeck              // deal from an empty deck divides by zero
    | MissingRecord          // a read of a room or hand never stored: the empty string does not parse
    | NotParticipant         // `list.remove` of an address the room does not hold
    | NotListed              // the room list holds no entry equal to the room's record
    | TooFewParticipants     // `next` past the end of the participant list
    | ChipReverted(e: ChipError)
    | NotContractToken       // on_install with a token address that is not a contract's

  /** Every store of the game contract, and the chip contract's balances. */
  datatype Stores = Stores(
    balances: Balances,
    gameRoom: map<Address, RoomRecord>,
    roomList: seq<RoomRecord>,
    inGameRoom: map<Address, Address>,
    decks: map<Address, seq<Card>>,
    hands: map<Address, HandRecord>,
    ready: map<Address, bool>,
    startHeight: map<Address, int>,
    results: seq<Outcome>)

  /** Blocks after the start of a game beyond which any hit or fix settles it. */
  const Timeout := 60

  /** `_DDB_ready[a]`: false for an address never written. */
  function ReadyOf(ready: map<Address, bool>, a: Address): bool
  {
    a in ready && ready[a]
  }

  /** `_DDB_game_start_time[id]`: 0 for a room never started. */
  function StartOf(startHeight: map<Address, int>, id: Address): int
  {
    if id in startHeight then startHeight[id] else 0
  }

  /** The first position of the room list whose entry has room id `id`. */
  function FindById(list: seq<RoomRecord>, id: Address): (r: Option<nat>)
    ensures r.Some? ==> r.value < |list| && list[r.value].id == id
    ensures r.Some? ==> forall j :: 0 <= j < r.value ==> list[j].id != id
    ensures r.None? ==> forall j :: 0 <= j < |list| ==> list[j].id != id
  {
    if list == [] then None
    else if list[0].id == id then Some(0)
    else match FindById(list[1..], id)
      case None => None
      case Some(k) => Some(k + 1)
  }

  /** `game_room_list[index] = str(room)` at the first entry with the room's id, if there is one. */
  function ReplaceById(list: seq<RoomRecord>, rec: RoomRecord): (r: seq<RoomRecord>)
    ensures |r| == |list|
  {
    match FindById(list, rec.id)
    case None => list
    case Some(i) => list[i := rec]
  }

  /** Some entry of the room list has room id `id`. */
  ghost predicate Listed(list: seq<RoomRecord>, id: Address)
  {
    exists i :: 0 <= i < |list| && list[i].id == id
  }

  /** Replacing the entry of a room the list does not show leaves the list as it is. */
  lemma ReplaceUnlisted(list: seq<RoomRecord>, rec: RoomRecord)
    requires !Listed(list, rec.id)
    ensures ReplaceById(list, rec) == list
  {
  }

  /** Unseating someone who sits nowhere leaves the seating as it is. */
  lemma UnseatAbsent(occ: map<Address, Address>, p: Address)
    requires p !in occ
    ensures occ - {p} == occ
  {
  }

  /**
   * A stored room: keyed by its owner, who is its id and first participant;
   * one or two distinct participants; two of them while a game runs.
   */
  ghost predicate RoomOk(id: Address, rec: RoomRecord)
  {
    && rec.owner == id && rec.id == id
    && 1 <= |rec.participants| <= 2
    && rec.participants[0] == id
    && Distinct(rec.participants)
    && (rec.active ==> |rec.participants| == 2)
  }

  /**
   * Occupancy: `inGameRoom` records exactly who sits in which room, so an
   * address sits in at most one room.
   */
  ghost predicate Occupancy(occ: map<Address, Address>, rooms: map<Address, RoomRecord>)
  {
    && (forall a :: a in occ ==> occ[a] in rooms && a in rooms[occ[a]].participants)
    && (forall r, a :: r in rooms && a in rooms[r].participants ==> a in occ && occ[a] == r)
  }

  /**
   * List/record mirroring: the room list holds one entry per stored room,
   * equal to its record except that the entry never shows a running game.
   */
  ghost predicate Mirrored(rooms: map<Address, RoomRecord>, list: seq<RoomRecord>)
  {
    && (forall i, j :: 0 <= i < j < |list| ==> list[i].id != list[j].id)
    && (forall i :: 0 <= i < |list| ==> list[i].id in rooms && list[i] == rooms[list[i].id].(active := false))
    && (forall r :: r in rooms ==> Listed(list, r))
  }

  /**
   * A player's hand and deck: the hand value is consistent with its cards,
   * at most five cards and fixed at five, and the deck plus the hand are
   * exactly the 52 cards of a fresh deck.
   */
  ghost predicate PlayerOk(h: HandRecord, deck: seq<Card>)
  {
    && Consistent(h)
    && |h.cards| <= 5
    && (|h.cards| < 5 || h.fix)
    && multiset(deck) + multiset(h.cards) == multiset(FreshDeck())
  }

  /** Every stored room is well formed. */
  ghost predicate RoomsOk(rooms: map<Address, RoomRecord>)
  {
    forall r :: r in rooms ==> RoomOk(r, rooms[r])
  }

  /** Hands and decks are stored for the same players, and each pair is in order. */
  ghost predicate PlayersOk(hands: map<Address, HandRecord>, decks: map<Address, seq<Card>>)
  {
    && hands.Keys == decks.Keys
    && forall a :: a in hands ==> PlayerOk(hands[a], decks[a])
  }

  /** Everyone seated in a room has a hand. */
  ghost predicate SeatedHaveHands(occ: map<Address, Address>, hands: map<Address, HandRecord>)
  {
    forall a :: a in occ ==> a in hands
  }

  /** The invariant the game's operations keep. */
  ghost predicate Inv(s: Stores)
  {
    && RoomsOk(s.gameRoom)
    && Occupancy(s.inGameRoom, s.gameRoom)
    && Mirrored(s.gameRoom, s.roomList)
    && PlayersOk(s.hands, s.decks)
    && SeatedHaveHands(s.inGameRoom, s.hands)
  }

  /** Storing a well-formed record keeps every stored room well formed. */
  lemma PutKeepsRoomsOk(rooms: map<Address, RoomRecord>, rec: RoomRecord)
    requires RoomsOk(rooms) && RoomOk(rec.id, rec)
    ensures RoomsOk(rooms[rec.id := rec])
  {
  }

  /** Storing a player's hand and deck in order keeps every player in order. */
  lemma PutKeepsPlayersOk(hands: map<Address, HandRecord>, decks: map<Address, seq<Card>>, a: Address, h: HandRecord, deck: seq<Card>)
    requires PlayersOk(hands, decks) && PlayerOk(h, deck)
    ensures PlayersOk(hands[a := h], decks[a := deck])
  {
  }

  /** An empty hand beside a full deck is in order. */
  lemma StartingPlayerOk(h: HandRecord, deck: seq<Card>)
    requires h.cards == [] && h.value == 0 && h.aces == 0
    requires multiset(deck) == multiset(FreshDeck())
    ensures PlayerOk(h, deck)
  {
    assert multiset(h.cards) == multiset{};
  }

  /** A fresh hand and a fresh deck are in order. */
  lemma NewPlayerOk()
    ensures PlayerOk(EmptyHand, FreshDeck())
  {
    StartingPlayerOk(EmptyHand, FreshDeck());
  }

  /** The empty game, as installed. */
  lemma EmptyInv(balances: Balances)
    ensures Inv(Stores(balances, map[], [], map[], map[], map[], map[], map[], []))
  {
  }

  /** In a stored room with a guest, the participants are exactly the owner and that guest. */
  lemma GuestIsSecond(id: Address, rec: RoomRecord, p: Address)
    requires RoomOk(id, rec) && p in rec.participants && p != rec.owner
    ensures rec.participants == [id, p]
    ensures RemoveFirst(rec.participants, p) == [id]
  {
    assert |rec.participants| == 2;
    assert rec.participants[1] == p;
    assert IndexOf(rec.participants, p) == 1;
  }

  /** With mirroring, the list entry of a stored room is found by its id and is its inactive record. */
  lemma FindListed(rooms: map<Address, RoomRecord>, list: seq<RoomRecord>, id: Address)
    requires Mirrored(rooms, list) && id in rooms
    ensures FindById(list, id).Some?
    ensures list[FindById(list, id).value] == rooms[id].(active := false)
    ensures !rooms[id].active ==> rooms[id] in list
  {
    var i :| 0 <= i < |list| && list[i].id == id;
    var k := FindById(list, id).value;
    assert k == i;
  }

  /** Replacing a stored room's record by an inactive one with the same id keeps mirroring. */
  lemma ReplaceKeepsMirrored(rooms: map<Address, RoomRecord>, list: seq<RoomRecord>, rec: RoomRecord)
    requires Mirrored(rooms, list) && rec.id in rooms && !rec.active
    ensures Mirrored(rooms[rec.id := rec], ReplaceById(list, rec))
  {
    FindListed(rooms, list, rec.id);
    var i := FindById(list, rec.id).value;
    var list' := ReplaceById(list, rec);
    assert list' == list[i := rec];
    var rooms' := rooms[rec.id := rec];
    forall r | r in rooms' ensures Listed(list', r) {
      var j :| 0 <= j < |list| && list[j].id == r;
      assert list'[j].id == r;
    }
  }

  /** Changing only the active flag of a stored record keeps mirroring. */
  lemma ToggleKeepsMirrored(rooms: map<Address, RoomRecord>, list: seq<RoomRecord>, id: Address, active: bool)
    requires Mirrored(rooms, list) && id in rooms
    ensures Mirrored(rooms[id := rooms[id].(active := active)], list)
  {
    var rooms' := rooms[id := rooms[id].(active := active)];
    forall r | r in rooms' ensures Listed(list, r) {
      assert r in rooms;
    }
  }

  /**
   * `_crash_room(id)`: everyone seated in the room is unseated and the room's
   * record and its list entry are deleted; the list entry is found by
   * equality with the whole record, and its absence reverts.
   */
  function Crashed(s: Stores, id: Address): Result<Stores, GameError>
  {
    if id !in s.gameRoom then Failure(MissingRecord)
    else
      var rec := s.gameRoom[id];
      if rec !in s.roomList then Failure(NotListed)
      else Success(s.(
        inGameRoom := s.inGameRoom - (set p | p in rec.participants),
        gameRoom := s.gameRoom - {id},
        roomList := RemoveFirst(s.roomList, rec)))
  }

  /**
   * Unseating some of a room's participants before crashing it changes
   * nothing: the crash unseats everyone in the stored record anyway.
   */
  lemma CrashAfterUnseating(s: Stores, id: Address, gone: set<Address>)
    requires id in s.gameRoom
    requires forall p :: p in gone ==> p in s.gameRoom[id].participants
    ensures Crashed(s.(inGameRoom := s.inGameRoom - gone), id) == Crashed(s, id)
  {
    var ps := set p | p in s.gameRoom[id].participants;
    assert s.inGameRoom - gone - ps == s.inGameRoom - ps;
  }

  /**
   * A guest leaving, by `escape` or by `_ban`: removed from the participants
   * in the record and in its list entry, and unseated.
   */
  function Unseated(s: Stores, id: Address, p: Address): Result<Stores, GameError>
  {
    if id !in s.gameRoom then Failure(MissingRecord)
    else if p !in s.gameRoom[id].participants then Failure(NotParticipant)
    else
      var rec := s.gameRoom[id].(participants := RemoveFirst(s.gameRoom[id].participants, p));
      Success(s.(
        gameRoom := s.gameRoom[id := rec],
        inGameRoom := s.inGameRoom - {p},
        roomList := ReplaceById(s.roomList, rec)))
  }

  /** `_ban(id, p)`: banning the owner takes the whole room down; a guest is unseated. */
  function Banned(s: Stores, id: Address, p: Address): Result<Stores, GameError>
  {
    if id !in s.gameRoom then Failure(MissingRecord)
    else if s.gameRoom[id].owner == p then Crashed(s, id)
    else Unseated(s, id, p)
  }

  /** The entries of a list with one entry removed, by position. */
  lemma RemoveAtIndex<T>(list: seq<T>, i: nat, j: nat)
    requires i < |list| && j < |list| - 1
    ensures RemoveAt(list, i)[j] == list[if j < i then j else j + 1]
  {
  }

  /** Deleting a stored room's record and its list entry keeps mirroring. */
  lemma DeleteKeepsMirrored(rooms: map<Address, RoomRecord>, list: seq<RoomRecord>, id: Address)
    requires Mirrored(rooms, list) && id in rooms && !rooms[id].active
    ensures rooms[id] in list
    ensures Mirrored(rooms - {id}, RemoveFirst(list, rooms[id]))
    ensures !Listed(RemoveFirst(list, rooms[id]), id)
  {
    var rec := rooms[id];
    FindListed(rooms, list, id);
    var i := IndexOf(list, rec);
    assert list[i].id == id;
    var rooms' := rooms - {id};
    var list' := RemoveAt(list, i);
    assert list' == RemoveFirst(list, rec);
    forall j1, j2 | 0 <= j1 < j2 < |list'| ensures list'[j1].id != list'[j2].id {
      RemoveAtIndex(list, i, j1);
      RemoveAtIndex(list, i, j2);
    }
    forall j | 0 <= j < |list'|
      ensures list'[j].id != id
      ensures list'[j].id in rooms' && list'[j] == rooms'[list'[j].id].(active := false)
    {
      RemoveAtIndex(list, i, j);
      var jj := if j < i then j else j + 1;
      assert list[jj].id != list[i].id;
    }
    forall r | r in rooms' ensures Listed(list', r) {
      var j :| 0 <= j < |list| && list[j].id == r;
      assert j != i;
      if j < i {
        RemoveAtIndex(list, i, j);
        assert list'[j].id == r;
      } else {
        RemoveAtIndex(list, i, j - 1);
        assert list'[j - 1].id == r;
      }
    }
  }

  /** Unseating everyone in a deleted room keeps occupancy exact. */
  lemma DeleteKeepsOccupancy(occ: map<Address, Address>, rooms: map<Address, RoomRecord>, id: Address)
    requires Occupancy(occ, rooms) && id in rooms
    ensures Occupancy(occ - (set p | p in rooms[id].participants), rooms - {id})
  {
    var gone := set p | p in rooms[id].participants;
    var occ' := occ - gone;
    var rooms' := rooms - {id};
    forall a | a in occ' ensures occ'[a] in rooms' && a in rooms'[occ'[a]].participants {
      assert a !in rooms[id].participants;
      assert occ[a] != id;
    }
    forall r, a | r in rooms' && a in rooms'[r].participants ensures a in occ' && occ'[a] == r {
      assert occ[a] == r;
      assert a !in rooms[id].participants;
    }
  }

  /**
   * Crashing an inactive stored room succeeds and keeps the invariant; its
   * participants sit nowhere afterwards and the list no longer shows it.
   */
  lemma CrashKeepsInv(s: Stores, id: Address)
    requires Inv(s) && id in s.gameRoom && !s.gameRoom[id].active
    ensures Crashed(s, id).Success?
    ensures Inv(Crashed(s, id).value)
    ensures forall p :: p in s.gameRoom[id].participants ==> p !in Crashed(s, id).value.inGameRoom
    ensures !Listed(Crashed(s, id).value.roomList, id)
  {
    DeleteKeepsMirrored(s.gameRoom, s.roomList, id);
    DeleteKeepsOccupancy(s.inGameRoom, s.gameRoom, id);
  }

  /** Removing a guest from a stored room's record and unseating them keeps occupancy exact. */
  lemma UnseatKeepsOccupancy(occ: map<Address, Address>, rooms: map<Address, RoomRecord>, id: Address, p: Address)
    requires Occupancy(occ, rooms) && id in rooms
    requires rooms[id].participants == [id, p] && p != id
    ensures Occupancy(occ - {p}, rooms[id := rooms[id].(participants := [id])])
  {
    var rooms' := rooms[id := rooms[id].(participants := [id])];
    var occ' := occ - {p};
    forall a | a in occ' ensures occ'[a] in rooms' && a in rooms'[occ'[a]].participants {
      if occ[a] == id {
        assert a in rooms[id].participants;
        assert a == id;
      }
    }
    assert p in rooms[id].participants && id in rooms[id].participants;
    assert occ[p] == id && occ[id] == id;
    forall r, a | r in rooms' && a in rooms'[r].participants ensures a in occ' && occ'[a] == r {
      if r == id {
        assert rooms'[id].participants == [id];
        assert a == id;
      } else {
        assert rooms'[r] == rooms[r];
        assert occ[a] == r;
      }
    }
  }

  /** A guest leaving an inactive stored room succeeds and keeps the invariant. */
  lemma UnseatKeepsInv(s: Stores, id: Address, p: Address)
    requires Inv(s) && id in s.gameRoom && !s.gameRoom[id].active
    requires p in s.gameRoom[id].participants && p != s.gameRoom[id].owner
    ensures Unseated(s, id, p).Success?
    ensures Inv(Unseated(s, id, p).value)
    ensures Unseated(s, id, p).value.gameRoom[id].participants == [id]
  {
    var old_rec := s.gameRoom[id];
    GuestIsSecond(id, old_rec, p);
    var rec := old_rec.(participants := [id]);
    ReplaceKeepsMirrored(s.gameRoom, s.roomList, rec);
    UnseatKeepsOccupancy(s.inGameRoom, s.gameRoom, id, p);
    var t := Unseated(s, id, p).value;
    assert t.gameRoom == s.gameRoom[id := rec];
    assert RoomOk(id, rec);
  }

  /** Banning a participant of an inactive stored room succeeds and keeps the invariant. */
  lemma BanKeepsInv(s: Stores, id: Address, p: Address)
    requires Inv(s) && id in s.gameRoom && !s.gameRoom[id].active
    requires p in s.gameRoom[id].participants
    ensures Banned(s, id, p).Success?
    ensures Inv(Banned(s, id, p).value)
    ensures p !in Banned(s, id, p).value.inGameRoom
  {
    if s.gameRoom[id].owner == p {
      CrashKeepsInv(s, id);
    } else {
      UnseatKeepsInv(s, id, p);
    }
  }

  /** A new room keyed by an id no room has, listed at the end, keeps mirroring. */
  lemma AddKeepsMirrored(rooms: map<Address, RoomRecord>, list: seq<RoomRecord>, rec: RoomRecord)
    requires Mirrored(rooms, list) && rec.id !in rooms && !rec.active
    ensures Mirrored(rooms[rec.id := rec], list + [rec])
  {
    var rooms' := rooms[rec.id := rec];
    var list' := list + [rec];
    forall j | 0 <= j < |list| ensures list'[j].id != rec.id {
      assert list[j].id in rooms;
    }
    forall r | r in rooms' ensures Listed(list', r) {
      if r == rec.id {
        assert list'[|list|].id == r;
      } else {
        var j :| 0 <= j < |list| && list[j].id == r;
        assert list'[j].id == r;
      }
    }
  }

  /** Seating `a` alone in a new room keyed by `a` keeps occupancy exact. */
  lemma AddKeepsOccupancy(occ: map<Address, Address>, rooms: map<Address, RoomRecord>, a: Address, rec: RoomRecord)
    requires Occupancy(occ, rooms) && a !in occ && a !in rooms && rec.participants == [a]
    ensures Occupancy(occ[a := a], rooms[a := rec])
  {
    var rooms' := rooms[a := rec];
    var occ' := occ[a := a];
    forall b | b in occ' ensures occ'[b] in rooms' && b in rooms'[occ'[b]].participants {
      if b != a {
        assert occ[b] != a;
      }
    }
  }

  /** Seating `p` at the end of a stored room keeps occupancy exact. */
  lemma JoinKeepsOccupancy(occ: map<Address, Address>, rooms: map<Address, RoomRecord>, id: Address, p: Address)
    requires Occupancy(occ, rooms) && id in rooms && p !in occ
    ensures Occupancy(occ[p := id], rooms[id := rooms[id].(participants := rooms[id].participants + [p])])
  {
    var rooms' := rooms[id := rooms[id].(participants := rooms[id].participants + [p])];
    var occ' := occ[p := id];
    forall b | b in occ' ensures occ'[b] in rooms' && b in rooms'[occ'[b]].participants {
      if b != p {
        assert b in rooms[occ[b]].participants;
      }
    }
    forall r, b | r in rooms' && b in rooms'[r].participants ensures b in occ' && occ'[b] == r {
      if b != p {
        assert b in rooms[r].participants;
      }
    }
  }

  /** Replacing a stored record by one with the same participants keeps occupancy exact. */
  lemma SameSeatsKeepOccupancy(occ: map<Address, Address>, rooms: map<Address, RoomRecord>, rec: RoomRecord)
    requires Occupancy(occ, rooms) && rec.id in rooms && rec.participants == rooms[rec.id].participants
    ensures Occupancy(occ, rooms[rec.id := rec])
  {
    var rooms' := rooms[rec.id := rec];
    forall r, b | r in rooms' && b in rooms'[r].participants ensures b in occ && occ[b] == r {
      assert b in rooms[r].participants;
    }
  }

  /** A hand that is not fixed holds at most four cards, so its deck still holds at least 48. */
  lemma OpenHandRoom(h: HandRecord, deck: seq<Card>)
    requires PlayerOk(h, deck) && !h.fix
    ensures |h.cards| <= 4 && |deck| >= 48
  {
    assert |multiset(deck) + multiset(h.cards)| == |multiset(FreshDeck())|;
  }

  /**
   * Drawing the deck's `k`-th card into a hand that is not fixed, fixing it
   * when it already holds four, keeps the player's hand and deck in order:
   * the card moves from the deck to the hand and the hand stays within
   * five cards.
   */
  lemma DrawKeepsPlayer(h: HandRecord, deck: seq<Card>, k: nat)
    requires PlayerOk(h, deck) && !h.fix && k < |deck|
    ensures PlayerOk(Drawn(h.(fix := h.fix || |h.cards| == 4), deck[k]), RemoveAt(deck, k))
  {
    OpenHandRoom(h, deck);
    var h0 := h.(fix := h.fix || |h.cards| == 4);
    assert Consistent(h0);
    DrawnConsistent(h0, deck[k]);
    RemoveAtMultiset(deck, k);
    var h' := Drawn(h0, deck[k]);
    assert multiset(h'.cards) == multiset(h.cards) + multiset{deck[k]};
    assert deck[k] in multiset(deck);
  }
}
