/**
 * A game room: who owns it, its id (the owner's address), the block height
 * it was created at, the stake each participant puts up per game, the
 * ordered participants, and whether a game is running.
 */
module GameRooms {
  import opened Icon
  import opened Seqs

  /** What is stored for a room, in the room registry and in the room list alike. */
  datatype RoomRecord = RoomRecord(
    owner: Address,
    id: Address,
    creationTime: int,
    prizePerGame: int,
    participants: seq<Address>,
    active: bool)

  /** The room object the game rebuilds from a record, updates and stores back. */
  class GameRoom {
    var owner: Address
    var gameRoomId: Address
    var creationTime: int
    var prizePerGame: int
    var participants: seq<Address>
    var active: bool

    /** `GameRoom(owner, id, time, prize)`: no participants yet, no game running. */
    constructor (owner: Address, id: Address, creationTime: int, prizePerGame: int)
      ensures Record() == RoomRecord(owner, id, creationTime, prizePerGame, [], false)
    {
      this.owner, this.gameRoomId := owner, id;
      this.creationTime, this.prizePerGame := creationTime, prizePerGame;
      participants, active := [], false;
    }

    /**
     * The room rebuilt from its stored record: every field, the participant
     * list and the active flag come back as they were stored.
     */
    constructor FromRecord(rec: RoomRecord)
      ensures Record() == rec
    {
      owner, gameRoomId := rec.owner, rec.id;
      creationTime, prizePerGame := rec.creationTime, rec.prizePerGame;
      participants, active := rec.participants, rec.active;
    }

    /** The record stored for this room. */
    function Record(): RoomRecord
      reads this
    {
      RoomRecord(owner, gameRoomId, creationTime, prizePerGame, participants, active)
    }

    /** `join`: the participant is appended; nothing else changes. */
    method Join(p: Address)
      modifies this
      ensures participants == old(participants) + [p]
      ensures Record() == old(Record()).(participants := old(participants) + [p])
    {
      participants := participants + [p];
    }

    /**
     * `escape`: the first occurrence of the participant is removed; when it
     * does not occur, `list.remove` raises and the room is left as it was.
     */
    method Escape(p: Address) returns (ok: bool)
      modifies this
      ensures ok <==> p in old(participants)
      ensures ok ==> Record() == old(Record()).(participants := RemoveFirst(old(participants), p))
      ensures !ok ==> Record() == old(Record())
    {
      if p !in participants {
        return false;
      }
      participants := RemoveFirst(participants, p);
      ok := true;
    }

    /** `game_start`: the room becomes active; nothing else changes. */
    method GameStart()
      modifies this
      ensures Record() == old(Record()).(active := true)
    {
      active := true;
    }

    /** `game_stop`: the room becomes inactive; nothing else changes. */
    method GameStop()
      modifies this
      ensures Record() == old(Record()).(active := false)
    {
      active := false;
    }
  }

  /** Joining and then escaping, for someone not yet in the room, restores the room. */
  method JoinThenEscape(room: GameRoom, p: Address)
    requires p !in room.participants
    modifies room
    ensures room.Record() == old(room.Record())
  {
    ghost var before := room.participants;
    room.Join(p);
    var ok := room.Escape(p);
    RemoveFirstOfAppended(before, p);
  }
}
