/** The server's room directory (build/server/App.js): every room in use by its ID,
    and the public rooms with space left, from which a room is drawn for a player
    that names none. */
module Directory {

  /** The identity of a room object; two rooms may carry the same ID string. */
  type RoomRef = nat

  /** `rooms = {all, available}`. */
  datatype Rooms = Rooms(all: map<string, RoomRef>, available: map<string, RoomRef>)

  const EmptyRooms := Rooms(map[], map[])

  /** updateRoomState as the source writes it: an empty room leaves both maps, a public
      room with space left is (re)listed as available, any other room is unlisted as
      available. `all` is never written here. */
  function UpdateAsWritten(rooms: Rooms, id: string, room: RoomRef, count: nat, maxPlayerCount: int,
                           isPrivate: bool): (r: Rooms)
    ensures count == 0 ==> id !in r.all && id !in r.available
    ensures count > 0 ==> r.all == rooms.all
  {
    if count == 0 then Rooms(rooms.all - {id}, rooms.available - {id})
    else if count < maxPlayerCount && !isPrivate then rooms.(available := rooms.available[id := room])
    else rooms.(available := rooms.available - {id})
  }

  /** updateRoomState as intended: as written, except that a room in use is also
      (re)registered in `all`, so that a room emptied and refilled in one step stays
      findable by its ID. */
  function Update(rooms: Rooms, id: string, room: RoomRef, count: nat, maxPlayerCount: int,
                  isPrivate: bool): (r: Rooms)
    ensures count == 0 ==> r.all == rooms.all - {id} && r.available == rooms.available - {id}
    ensures count > 0 ==> r.all == rooms.all[id := room]
    ensures count > 0 ==> (id in r.available <==> count < maxPlayerCount && !isPrivate)
    ensures count > 0 && id in r.available ==> r.available[id] == room
    ensures forall other :: other != id ==>
      (other in r.all <==> other in rooms.all) && (other in r.available <==> other in rooms.available)
    ensures forall other :: other != id && other in r.all ==> r.all[other] == rooms.all[other]
    ensures forall other :: other != id && other in r.available ==> r.available[other] == rooms.available[other]
  {
    if count == 0 then Rooms(rooms.all - {id}, rooms.available - {id})
    else if count < maxPlayerCount && !isPrivate then Rooms(rooms.all[id := room], rooms.available[id := room])
    else Rooms(rooms.all[id := room], rooms.available - {id})
  }

  /** The directory is consistent: every available room is the room registered under
      its ID. */
  predicate Listed(rooms: Rooms) {
    forall id :: id in rooms.available ==> id in rooms.all && rooms.all[id] == rooms.available[id]
  }

  /** The corrected update keeps the directory consistent and leaves room `room`
      registered under `id` exactly while it has players. */
  lemma UpdateKeepsListed(rooms: Rooms, id: string, room: RoomRef, count: nat, maxPlayerCount: int, isPrivate: bool)
    requires Listed(rooms)
    ensures Listed(Update(rooms, id, room, count, maxPlayerCount, isPrivate))
    ensures var r := Update(rooms, id, room, count, maxPlayerCount, isPrivate);
      id in r.all && r.all[id] == room <==> count > 0
  {
  }

  /** The update that the source performs agrees with the corrected one on
      `available`, and on `all` whenever the room was already registered. */
  lemma UpdateAgrees(rooms: Rooms, id: string, room: RoomRef, count: nat, maxPlayerCount: int, isPrivate: bool)
    ensures UpdateAsWritten(rooms, id, room, count, maxPlayerCount, isPrivate).available
         == Update(rooms, id, room, count, maxPlayerCount, isPrivate).available
    ensures id in rooms.all && rooms.all[id] == room ==>
      UpdateAsWritten(rooms, id, room, count, maxPlayerCount, isPrivate)
        == Update(rooms, id, room, count, maxPlayerCount, isPrivate)
  {
    if count > 0 && id in rooms.all && rooms.all[id] == room {
      assert rooms.all[id := room] == rooms.all;
    }
  }

  /** A player alone in public room "r" (object 7) reconnects to "r": removing them
      empties the room, which leaves both maps; adding them back lists it as available
      again but never again in `all`. The directory is then inconsistent, and the next
      lookup of "r" finds no room and creates a second room with the same ID. */
  lemma ReconnectLosesRoom()
    ensures var start := Rooms(map["r" := 7], map["r" := 7]);
      var emptied := UpdateAsWritten(start, "r", 7, 0, 2, false);
      var refilled := UpdateAsWritten(emptied, "r", 7, 1, 2, false);
      "r" !in refilled.all && "r" in refilled.available && !Listed(refilled)
    ensures var start := Rooms(map["r" := 7], map["r" := 7]);
      var emptied := Update(start, "r", 7, 0, 2, false);
      var refilled := Update(emptied, "r", 7, 1, 2, false);
      "r" in refilled.all && refilled.all["r"] == 7 && Listed(refilled)
  {
    var start := Rooms(map["r" := 7], map["r" := 7]);
    var emptied := UpdateAsWritten(start, "r", 7, 0, 2, false);
    assert emptied.all == map[];
  }
}
