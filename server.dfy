/** The server (src/server/game/Room.ts, src/server/game/Player.ts, build/server/App.js):
    the connected players, the room objects, and the room directory, with the
    operations the socket handlers perform on them. */
module Server {
  import opened GameTypes
  import opened RoomLogic
  import opened Directory
  import Scorer

  /** A player's fields; the ID keys the player map. */
  datatype PlayerRec = PlayerRec(name: string, score: int, totalScore: int, attempts: seq<Attempt>, room: Option<RoomRef>)

  /** A room object's fields. `players` is in join order; its head is the administrator. */
  datatype RoomRec = RoomRec(
    id: string,
    isPrivate: bool,
    maxPlayerCount: int,
    settings: GameSettings,
    players: seq<PlayerId>,
    previousChooser: Option<PlayerId>,
    state: GameState,
    word: Option<string>)

  /** A handler's reply. */
  datatype Response = Success | Scored(scoring: Attempt) | Joined(id: string) | Failure(code: int)

  const RoomFull := 1
  const NotInRoom := 5
  const NotAdmin := -1
  const NotChooser := -2
  /** withErrorHandling's code for an exception. */
  const Unexpected := -1000

  type Players = map<PlayerId, PlayerRec>
  type RoomTable = map<RoomRef, RoomRec>

  /** A room as its constructor leaves it. */
  function NewRoom(id: string): (room: RoomRec)
    ensures room.players == [] && room.id == id && !room.isPrivate && room.maxPlayerCount == 2
    ensures room.settings == DefaultSettings && room.state == InitialState
  {
    RoomRec(id, false, 2, DefaultSettings, [], None, InitialState, None)
  }

  /** Name digits of a guest, `Math.floor(Math.random() * 1e3)` in decimal. */
  function Decimal(n: nat): (s: string)
    ensures |s| > 0 && forall i :: 0 <= i < |s| ==> '0' <= s[i] <= '9'
    ensures n < 10 ==> |s| == 1
    ensures n < 100 ==> |s| <= 2
    ensures n < 1000 ==> |s| <= 3
  {
    var d := [(('0' as int) + n % 10) as char];
    if n < 10 then d else Decimal(n / 10) + d
  }

  /** The number a string of decimal digits denotes. */
  function Value(s: string): nat {
    if s == [] then 0
    else
      var c := s[|s| - 1];
      10 * Value(s[..|s| - 1]) + (if '0' <= c <= '9' then (c as int) - ('0' as int) else 0)
  }

  /** The guest-name digits denote the drawn number. */
  lemma {:induction false} DecimalValue(n: nat)
    ensures Value(Decimal(n)) == n
  {
    if n >= 10 {
      DecimalValue(n / 10);
      var s := Decimal(n);
      assert s[..|s| - 1] == Decimal(n / 10);
    }
  }

  predicate Distinct(ps: seq<PlayerId>) {
    forall i, j :: 0 <= i < j < |ps| ==> ps[i] != ps[j]
  }

  /** `players.splice(players.indexOf(p), 1)`. */
  function Without(ps: seq<PlayerId>, p: PlayerId): (r: seq<PlayerId>)
    requires p in ps
    ensures |r| == |ps| - 1
    ensures forall i :: 0 <= i < |r| ==> r[i] == if i < FindIndex(ps, p) then ps[i] else ps[i + 1]
    ensures Distinct(ps) ==> Distinct(r) && forall q :: q in r <==> q in ps && q != p
  {
    var k := FindIndex(ps, p);
    var r := ps[..k] + ps[k + 1..];
    assert forall i :: 0 <= i < |r| ==> r[i] == if i < k then ps[i] else ps[i + 1];
    r
  }

  // ---------------------------------------------------------------------------
  // The consistency of players, rooms and directory

  /** Every room a player is in lists them, every player a room lists is in it, nobody is
      listed twice, and the directory only points at rooms carrying the ID they are
      filed under, with the available rooms among the registered ones. */
  ghost predicate Core(players: Players, table: RoomTable, rooms: Rooms, nextRef: RoomRef) {
    Numbered(table, nextRef) && Listing(players, table) && Seated(players, table) && Filed(table, rooms) && Listed(rooms)
  }

  /** Room references are below the next one, and no room lists a player twice. */
  ghost predicate Numbered(table: RoomTable, nextRef: RoomRef) {
    forall r :: r in table ==> r < nextRef && Distinct(table[r].players)
  }

  /** Every player a room lists is in that room. */
  ghost predicate Listing(players: Players, table: RoomTable) {
    forall r, q :: r in table && q in table[r].players ==> q in players && players[q].room == Some(r)
  }

  /** Every player in a room is listed by it. */
  ghost predicate Seated(players: Players, table: RoomTable) {
    forall q :: q in players && players[q].room.Some? ==>
      players[q].room.value in table && q in table[players[q].room.value].players
  }

  /** The directory files rooms under their own IDs. */
  ghost predicate Filed(table: RoomTable, rooms: Rooms) {
    forall id :: id in rooms.all ==> rooms.all[id] in table && table[rooms.all[id]].id == id
  }

  /** A room with players is the room registered under its ID. */
  ghost predicate Registered(table: RoomTable, rooms: Rooms, r: RoomRef)
    requires r in table
  {
    |table[r].players| > 0 ==> table[r].id in rooms.all && rooms.all[table[r].id] == r
  }

  /** The directory slot of room `r`'s ID is free or holds `r`. */
  ghost predicate HoldsSlot(table: RoomTable, rooms: Rooms, r: RoomRef)
    requires r in table
  {
    table[r].id in rooms.all ==> rooms.all[table[r].id] == r
  }

  ghost predicate RegisteredExcept(table: RoomTable, rooms: Rooms, x: RoomRef) {
    forall r :: r in table && r != x ==> Registered(table, rooms, r)
  }

  ghost predicate Consistent(players: Players, table: RoomTable, rooms: Rooms, nextRef: RoomRef) {
    Core(players, table, rooms, nextRef) && forall r :: r in table ==> Registered(table, rooms, r)
  }

  /** Two states with the same membership: the same players in the same rooms. */
  ghost predicate SameMembership(players: Players, table: RoomTable, players': Players, table': RoomTable) {
    && players'.Keys == players.Keys
    && (forall q :: q in players ==> players'[q].room == players[q].room)
    && table'.Keys == table.Keys
    && (forall r :: r in table ==> table'[r].players == table[r].players && table'[r].id == table[r].id)
  }

  /** Changing anything but membership keeps the state consistent. */
  lemma SameMembershipConsistent(players: Players, table: RoomTable, rooms: Rooms, nextRef: RoomRef,
                                 players': Players, table': RoomTable)
    requires Consistent(players, table, rooms, nextRef)
    requires SameMembership(players, table, players', table')
    ensures Consistent(players', table', rooms, nextRef)
  {
    forall r | r in table'
      ensures Registered(table', rooms, r)
    {
      assert Registered(table, rooms, r);
    }
  }

  // ---------------------------------------------------------------------------
  // The effects of the game operations, as functions of the state

  /** `players.forEach(p => p.setAttempts([]))` over the room's players. */
  function ClearAttempts(players: Players, ps: seq<PlayerId>): (r: Players)
    ensures r.Keys == players.Keys
    ensures forall q :: q in r && q in ps ==> r[q].attempts == []
    ensures forall q :: q in r ==> r[q] == players[q].(attempts := r[q].attempts)
    ensures forall q :: q in r && q !in ps ==> r[q] == players[q]
  {
    map q | q in players :: if q in ps then players[q].(attempts := []) else players[q]
  }

  /** `players.forEach(p => p.setScore(0))` over the room's players. */
  function ResetScores(players: Players, ps: seq<PlayerId>): (r: Players)
    ensures r.Keys == players.Keys
    ensures forall q :: q in r && q in ps ==> r[q].score == 0
    ensures forall q :: q in r ==> r[q] == players[q].(score := r[q].score)
    ensures forall q :: q in r && q !in ps ==> r[q] == players[q]
  {
    map q | q in players :: if q in ps then players[q].(score := 0) else players[q]
  }

  /** The room after startRound(round): in `entered` mode the next chooser is picked
      and the room waits for their word; in `randomized` mode the word at `pick` is set
      and the round is played. */
  function StartRoundRoom(room: RoomRec, round: int, pick: nat): (r: RoomRec)
    ensures r.players == room.players && r.id == room.id && r.settings == room.settings
    ensures r.isPrivate == room.isPrivate && r.maxPlayerCount == room.maxPlayerCount
    ensures r.state.round == round && r.state.winner == None
    ensures room.settings.wordMode == Entered ==>
      && r.state.status == ChoosingWord
      && r.state.chooser == r.previousChooser == NextChooser(room.players, room.previousChooser)
      && r.word == room.word
    ensures room.settings.wordMode == Randomized ==>
      && r.state == PlayingState(room.state, round)
      && r.word == WordAt(room.settings.wordList, pick)
      && r.previousChooser == room.previousChooser
  {
    if room.settings.wordMode == Entered then
      var chooser := NextChooser(room.players, room.previousChooser);
      room.(previousChooser := chooser, state := ChoosingState(room.state, round, chooser))
    else
      room.(word := WordAt(room.settings.wordList, pick), state := PlayingState(room.state, round))
  }

  /** Whether nextRound starts another round rather than ending the match. */
  predicate HasNextRound(room: RoomRec) {
    room.state.round + 1 <= room.settings.rounds
  }

  /** The room after nextRound: the next round, or back to waiting after the last. */
  function NextRoundRoom(room: RoomRec, pick: nat): (r: RoomRec)
    ensures HasNextRound(room) ==> r == StartRoundRoom(room, room.state.round + 1, pick)
    ensures !HasNextRound(room) ==> r == room.(state := room.state.(status := Waiting))
  {
    if HasNextRound(room) then StartRoundRoom(room, room.state.round + 1, pick)
    else room.(state := MatchOverState(room.state))
  }

  /** The players after nextRound: attempts cleared only when a round starts. */
  function NextRoundPlayers(players: Players, room: RoomRec): Players {
    if HasNextRound(room) then ClearAttempts(players, room.players) else players
  }

  /** Every player's attempts, for the round decision. */
  function AttemptsOf(players: Players): (a: map<PlayerId, seq<Attempt>>)
    ensures a.Keys == players.Keys
    ensures forall q :: q in players ==> a[q] == players[q].attempts
  {
    map q | q in players :: players[q].attempts
  }

  /** The room once a decision is made: showing the winner, or the draw. */
  function Settle(room: RoomRec, o: Outcome): (r: RoomRec)
    ensures o == NoDecision ==> r == room
    ensures o.Winner? ==> r == room.(state := DecidedState(room.state, Some(o.id)))
    ensures o == Draw ==> r == room.(state := DecidedState(room.state, None))
  {
    match o
    case NoDecision => room
    case Winner(w) => room.(state := DecidedState(room.state, Some(w)))
    case Draw => room.(state := DecidedState(room.state, None))
  }

  /** The winner's round score and total score each go up by one. */
  function Reward(players: Players, o: Outcome): (r: Players)
    requires o.Winner? ==> o.id in players
    ensures r.Keys == players.Keys
    ensures o.Winner? ==>
      r == players[o.id := players[o.id].(score := players[o.id].score + 1,
                                          totalScore := players[o.id].totalScore + 1)]
    ensures !o.Winner? ==> r == players
  {
    if o.Winner? then
      players[o.id := players[o.id].(score := players[o.id].score + 1, totalScore := players[o.id].totalScore + 1)]
    else players
  }

  /** checkPlayerAttempts(p): no decision unless the round is played; otherwise the
      room's decision, which may throw (see RoomLogic.DecideAsWritten). */
  function Decision(players: Players, room: RoomRec, p: PlayerId): (d: Checked<Outcome>)
    requires p in players
    requires forall q :: q in room.players ==> q in players
    ensures d.Done? && d.value.Winner? ==> d.value.id in players
    ensures room.state.status != Playing ==> d == Done(NoDecision)
  {
    var attempts := AttemptsOf(players);
    DecideAgrees(room.settings.scoring, room.settings.attempts, p, room.players, attempts);
    if room.state.status == Playing
    then DecideAsWritten(room.settings.scoring, room.settings.attempts, p, room.players, attempts)
    else Done(NoDecision)
  }

  /** The decision made, with an exception making none. */
  function OutcomeOf(d: Checked<Outcome>): Outcome {
    if d.Done? then d.value else NoDecision
  }

  /** The room `getRoom` returns, when it exists already: the one registered under a
      given ID, else for no ID the available room drawn by `choice`; `None` when a room
      is created. */
  function Lookup(rooms: Rooms, id: string, choice: string): Option<RoomRef> {
    if id != "" then (if id in rooms.all then Some(rooms.all[id]) else None)
    else if choice in rooms.available then Some(rooms.available[choice])
    else None
  }

  /** The players, the room objects and the directory together. */
  datatype ServerState = ServerState(players: Players, table: RoomTable, rooms: Rooms)

  /** The state after room.removePlayer(p): `p` is spliced out of the room and is in no
      room with a match score of 0; if `p` was choosing the word the room moves to the
      next round; the directory is updated for the room. Nothing happens when `p` is
      not in the room. */
  function Removed(s: ServerState, r: RoomRef, p: PlayerId, pick: nat): ServerState
    requires r in s.table && p in s.players
  {
    var room := s.table[r];
    if p !in room.players then s
    else
      var left := room.(players := Without(room.players, p));
      var pl := s.players[p := s.players[p].(room := None, score := 0)];
      var isChooser := room.state.chooser == Some(p);
      ServerState(
        if isChooser then NextRoundPlayers(pl, left) else pl,
        s.table[r := if isChooser then NextRoundRoom(left, pick) else left],
        Update(s.rooms, left.id, r, |left.players|, left.maxPlayerCount, left.isPrivate))
  }

  /** After a removal the player is in no room and not listed by the room, every other
      player keeps their room, the room keeps its other players in order, and a room left
      empty is dropped from the directory. */
  lemma RemovedSpec(s: ServerState, nextRef: RoomRef, r: RoomRef, p: PlayerId, pick: nat)
    requires Consistent(s.players, s.table, s.rooms, nextRef)
    requires r in s.table && p in s.players
    ensures var s' := Removed(s, r, p, pick);
      && s'.players.Keys == s.players.Keys && s'.table.Keys == s.table.Keys
      && p !in s'.table[r].players
      && (p in s.table[r].players ==> s'.players[p].room.None? && s'.players[p].score == 0)
      && (forall q :: q in s.players && q != p ==> s'.players[q].room == s.players[q].room)
      && (forall t :: t in s.table && t != r ==> s'.table[t] == s.table[t])
      && (p in s.table[r].players ==> s'.table[r].players == Without(s.table[r].players, p))
      && (p in s.table[r].players && s'.table[r].players == [] ==>
            s.table[r].id !in s'.rooms.all && s.table[r].id !in s'.rooms.available)
  {
  }

  /** The state after room.addPlayer(p) for a player in no room: `p` joins at the end
      with a match score of 0, and the directory is updated for the room. Nothing
      happens when `p` is in the room already. */
  function Added(s: ServerState, r: RoomRef, p: PlayerId): ServerState
    requires r in s.table && p in s.players
  {
    var room := s.table[r];
    if p in room.players then s
    else
      var joined := room.(players := room.players + [p]);
      ServerState(
        s.players[p := s.players[p].(room := Some(r), score := 0)],
        s.table[r := joined],
        Update(s.rooms, joined.id, r, |joined.players|, joined.maxPlayerCount, joined.isPrivate))
  }

  lemma RemoveConsistent(players: Players, table: RoomTable, rooms: Rooms, nextRef: RoomRef, r: RoomRef, p: PlayerId)
    requires Consistent(players, table, rooms, nextRef)
    requires r in table && p in table[r].players
    ensures var room := table[r];
      Consistent(players[p := players[p].(room := None, score := 0)],
                 table[r := room.(players := Without(room.players, p))], rooms, nextRef)
    ensures HoldsSlot(table, rooms, r)
  {
    var room := table[r];
    var table' := table[r := room.(players := Without(room.players, p))];
    var players' := players[p := players[p].(room := None, score := 0)];
    assert Registered(table, rooms, r);
    forall t, q | t in table' && q in table'[t].players
      ensures q in players' && players'[q].room == Some(t)
    {
      assert q in table[t].players;
    }
    forall t | t in table'
      ensures Registered(table', rooms, t)
    {
      assert Registered(table, rooms, t);
    }
  }

  lemma AddConsistent(players: Players, table: RoomTable, rooms: Rooms, nextRef: RoomRef, r: RoomRef, p: PlayerId)
    requires Consistent(players, table, rooms, nextRef)
    requires r in table && p in players && players[p].room.None?
    ensures var room := table[r];
      && Core(players[p := players[p].(room := Some(r), score := 0)],
              table[r := room.(players := room.players + [p])], rooms, nextRef)
      && RegisteredExcept(table[r := room.(players := room.players + [p])], rooms, r)
  {
    var room := table[r];
    var joined := room.players + [p];
    var table' := table[r := room.(players := joined)];
    var players' := players[p := players[p].(room := Some(r), score := 0)];
    assert p !in room.players;
    AppendDistinct(room.players, p);
    forall t | t in table'
      ensures t < nextRef && Distinct(table'[t].players)
    {
      if t != r {
        assert table'[t] == table[t];
      }
    }
    forall id | id in rooms.all
      ensures rooms.all[id] in table' && table'[rooms.all[id]].id == id
    {
    }
    forall t, q | t in table' && q in table'[t].players
      ensures q in players' && players'[q].room == Some(t)
    {
      if t == r && q != p {
        assert q in room.players;
      }
    }
    forall q | q in players' && players'[q].room.Some?
      ensures players'[q].room.value in table' && q in table'[players'[q].room.value].players
    {
      if q == p {
        assert joined[|room.players|] == p;
      } else if players[q].room.value == r {
        assert joined[..|room.players|] == room.players;
      }
    }
    forall t | t in table' && t != r
      ensures Registered(table', rooms, t)
    {
      assert Registered(table, rooms, t);
    }
    assert Core(players', table', rooms, nextRef);
  }

  /** Appending a player who is not listed keeps the list free of duplicates. */
  lemma AppendDistinct(ps: seq<PlayerId>, p: PlayerId)
    requires Distinct(ps) && p !in ps
    ensures Distinct(ps + [p])
  {
  }

  /** After an addition the player is the room's last player, is in that room with a
      match score of 0, and the room, having a player, is registered under its ID. */
  lemma AddedSpec(s: ServerState, r: RoomRef, p: PlayerId)
    requires r in s.table && p in s.players && p !in s.table[r].players
    ensures var s' := Added(s, r, p);
      && s'.table[r].players == s.table[r].players + [p]
      && s'.players[p].room == Some(r) && s'.players[p].score == 0
      && (forall q :: q in s.players && q != p ==> s'.players[q] == s.players[q])
      && s.table[r].id in s'.rooms.all && s'.rooms.all[s.table[r].id] == r
  {
  }

  /** The room getRoom returns: the existing one Lookup finds, else the one it creates,
      which takes the next reference. */
  function Target(rooms: Rooms, nextRef: RoomRef, id: string, choice: string): RoomRef {
    var found := Lookup(rooms, id, choice);
    if found.Some? then found.value else nextRef
  }

  /** The state after getRoom: a room is created (under the ID given, else the new ID)
      when none is found, and the room returned is registered under its ID. */
  function Fetch(s: ServerState, nextRef: RoomRef, id: string, newId: string, choice: string): (s': ServerState)
    requires Consistent(s.players, s.table, s.rooms, nextRef)
    ensures Target(s.rooms, nextRef, id, choice) in s'.table
  {
    var r := Target(s.rooms, nextRef, id, choice);
    var table := if Lookup(s.rooms, id, choice).Some? then s.table
                 else s.table[r := NewRoom(if id != "" then id else newId)];
    s.(table := table, rooms := s.rooms.(all := s.rooms.all[table[r].id := r]))
  }

  /** Finding an existing room changes nothing; a new room starts empty in the table. */
  lemma FetchSpec(s: ServerState, nextRef: RoomRef, id: string, newId: string, choice: string)
    requires Consistent(s.players, s.table, s.rooms, nextRef)
    ensures Lookup(s.rooms, id, choice).Some? ==> Fetch(s, nextRef, id, newId, choice) == s
    ensures Lookup(s.rooms, id, choice).None? ==>
      Fetch(s, nextRef, id, newId, choice).table == s.table[nextRef := NewRoom(if id != "" then id else newId)]
  {
    var r := Target(s.rooms, nextRef, id, choice);
    if Lookup(s.rooms, id, choice).Some? {
      assert s.table[r].id in s.rooms.all;
      assert s.rooms.all[s.table[r].id := r] == s.rooms.all;
    }
  }

  /** Registering a room that holds its ID's slot keeps the state consistent. */
  lemma RegisterConsistent(players: Players, table: RoomTable, rooms: Rooms, nextRef: RoomRef, r: RoomRef)
    requires Consistent(players, table, rooms, nextRef) && r in table
    requires HoldsSlot(table, rooms, r)
    ensures Consistent(players, table, rooms.(all := rooms.all[table[r].id := r]), nextRef)
  {
    var rooms' := rooms.(all := rooms.all[table[r].id := r]);
    forall t | t in table
      ensures Registered(table, rooms', t)
    {
      assert Registered(table, rooms, t);
    }
  }

  /** A room's administrator: its first player. */
  predicate IsAdmin(room: RoomRec, p: PlayerId) {
    |room.players| > 0 && room.players[0] == p
  }

  /** The scoring of `guess` against the word of `room` (or "" when none is set). */
  function RoomScore(room: RoomRec, guess: string): Attempt {
    Scorer.Score(if room.word.Some? then room.word.value else "", guess, room.settings.seeOpponents)
  }

  /** The players once `p` has recorded the scoring of `guess`. */
  function Recorded(players: Players, room: RoomRec, p: PlayerId, guess: string): (r: Players)
    requires p in players
    ensures r.Keys == players.Keys
    ensures r[p].attempts == players[p].attempts + [RoomScore(room, guess)]
    ensures r[p] == players[p].(attempts := r[p].attempts)
    ensures forall q :: q in players && q != p ==> r[q] == players[q]
  {
    players[p := players[p].(attempts := players[p].attempts + [RoomScore(room, guess)])]
  }

  /** The state after `p` submits `guess` in room `r`: the scoring is added to `p`'s
      attempts, and the round is checked; an exception in the check still leaves the
      attempt recorded. */
  function Submitted(s: ServerState, r: RoomRef, p: PlayerId, guess: string): ServerState
    requires r in s.table && p in s.players
    requires forall q :: q in s.table[r].players ==> q in s.players
  {
    var room := s.table[r];
    var pl := Recorded(s.players, room, p, guess);
    var o := OutcomeOf(Decision(pl, room, p));
    ServerState(Reward(pl, o), s.table[r := Settle(room, o)], s.rooms)
  }

  /** The reply to the submission: the scoring, or the unexpected error when the check
      throws. */
  function SubmitReply(s: ServerState, r: RoomRef, p: PlayerId, guess: string): Response
    requires r in s.table && p in s.players
    requires forall q :: q in s.table[r].players ==> q in s.players
  {
    var room := s.table[r];
    if Decision(Recorded(s.players, room, p, guess), room, p) == Threw then Failure(Unexpected)
    else Scored(RoomScore(room, guess))
  }

  /** A submission appends exactly one attempt, the scoring, to the submitter's
      attempts and touches no other player's attempts or room; only a winner's two scores
      change, each by one; an exception in the check changes nothing else. */
  lemma SubmittedSpec(s: ServerState, r: RoomRef, p: PlayerId, guess: string)
    requires r in s.table && p in s.players
    requires forall q :: q in s.table[r].players ==> q in s.players
    ensures var s' := Submitted(s, r, p, guess);
      var room := s.table[r];
      var o := OutcomeOf(Decision(Recorded(s.players, room, p, guess), room, p));
      && s'.players.Keys == s.players.Keys
      && s'.players[p].attempts == s.players[p].attempts + [RoomScore(room, guess)]
      && |RoomScore(room, guess)| == (if room.word.Some? then |room.word.value| else 0)
      && (forall q :: q in s.players ==> s'.players[q].room == s.players[q].room && s'.players[q].name == s.players[q].name)
      && (forall q :: q in s.players && q != p ==> s'.players[q].attempts == s.players[q].attempts)
      && (forall q :: q in s.players ==>
            s'.players[q].score == s.players[q].score + (if o == Winner(q) then 1 else 0)
            && s'.players[q].totalScore == s.players[q].totalScore + (if o == Winner(q) then 1 else 0))
  {
    var room := s.table[r];
    var pl := Recorded(s.players, room, p, guess);
    var o := OutcomeOf(Decision(pl, room, p));
    assert Submitted(s, r, p, guess).players == Reward(pl, o);
    ScoreLength(room, guess);
    RewardScores(pl, o);
  }

  /** When the check throws, the attempt stays recorded and nothing else changes. */
  lemma SubmitThrowSpec(s: ServerState, r: RoomRef, p: PlayerId, guess: string)
    requires r in s.table && p in s.players
    requires forall q :: q in s.table[r].players ==> q in s.players
    requires SubmitReply(s, r, p, guess) == Failure(Unexpected)
    ensures Submitted(s, r, p, guess) == s.(players := Recorded(s.players, s.table[r], p, guess))
  {
    assert s.table[r := s.table[r]] == s.table;
  }

  /** The scoring has one verdict per letter of the room's word. */
  lemma ScoreLength(room: RoomRec, guess: string)
    ensures |RoomScore(room, guess)| == (if room.word.Some? then |room.word.value| else 0)
  {
  }

  /** A reward raises the winner's two scores by one and changes nothing else. */
  lemma RewardScores(players: Players, o: Outcome)
    requires o.Winner? ==> o.id in players
    ensures var r := Reward(players, o);
      && (forall q :: q in players ==>
            r[q].room == players[q].room && r[q].name == players[q].name && r[q].attempts == players[q].attempts)
      && (forall q :: q in players ==>
            r[q].score == players[q].score + (if o == Winner(q) then 1 else 0)
            && r[q].totalScore == players[q].totalScore + (if o == Winner(q) then 1 else 0))
  {
  }

  // ---------------------------------------------------------------------------
  // The server state

  class World {
    var players: Players
    var roomTable: RoomTable
    var rooms: Rooms
    var nextRef: RoomRef

    ghost predicate Valid()
      reads this
    {
      Consistent(players, roomTable, rooms, nextRef)
    }

    /** The server at start-up: no players, no rooms. */
    constructor()
      ensures Valid()
      ensures players == map[] && roomTable == map[] && rooms == EmptyRooms
    {
      players := map[];
      roomTable := map[];
      rooms := EmptyRooms;
      nextRef := 0;
    }

    /** updateRoomState (corrected, see Directory.Update), run on every accessibility
        change of a room: the directory is brought in line with the room's player
        count, capacity and privacy. */
    method UpdateRoomState(r: RoomRef)
      requires r in roomTable
      requires Core(players, roomTable, rooms, nextRef) && RegisteredExcept(roomTable, rooms, r)
      requires HoldsSlot(roomTable, rooms, r)
      modifies this`rooms
      ensures rooms == Update(old(rooms), roomTable[r].id, r, |roomTable[r].players|,
                              roomTable[r].maxPlayerCount, roomTable[r].isPrivate)
      ensures Valid()
    {
      var room := roomTable[r];
      UpdateConsistent(players, roomTable, rooms, nextRef, r);
      rooms := Update(rooms, room.id, r, |room.players|, room.maxPlayerCount, room.isPrivate);
    }

    /** The attempts-clearing loop of startRound. */
    method ClearRoomAttempts(ps: seq<PlayerId>)
      requires forall q :: q in ps ==> q in players
      modifies this`players
      ensures players == ClearAttempts(old(players), ps)
    {
      var i := 0;
      while i < |ps|
        invariant 0 <= i <= |ps|
        invariant players == ClearAttempts(old(players), ps[..i])
      {
        ClearStep(old(players), ps, i);
        players := players[ps[i] := players[ps[i]].(attempts := [])];
        i := i + 1;
      }
      assert ps[..i] == ps;
    }

    /** The score-resetting loop of startGame. */
    method ResetRoomScores(ps: seq<PlayerId>)
      requires forall q :: q in ps ==> q in players
      modifies this`players
      ensures players == ResetScores(old(players), ps)
    {
      var i := 0;
      while i < |ps|
        invariant 0 <= i <= |ps|
        invariant players == ResetScores(old(players), ps[..i])
      {
        ResetStep(old(players), ps, i);
        players := players[ps[i] := players[ps[i]].(score := 0)];
        i := i + 1;
      }
      assert ps[..i] == ps;
    }

    /** startRound(round): every player's attempts are cleared, then the chooser or the
        word of the round is picked (see StartRoundRoom). */
    method StartRound(r: RoomRef, round: int, pick: nat)
      requires Valid() && r in roomTable
      modifies this`players, this`roomTable
      ensures players == ClearAttempts(old(players), old(roomTable[r].players))
      ensures roomTable == old(roomTable)[r := StartRoundRoom(old(roomTable[r]), round, pick)]
      ensures Valid()
    {
      var room := roomTable[r];
      ClearRoomAttempts(room.players);
      roomTable := roomTable[r := StartRoundRoom(room, round, pick)];
      SameMembershipConsistent(old(players), old(roomTable), rooms, nextRef, players, roomTable);
    }

    /** nextRound: the next round starts, or after the last one the room goes back to
        waiting with everything else kept. */
    method NextRound(r: RoomRef, pick: nat)
      requires Valid() && r in roomTable
      modifies this`players, this`roomTable
      ensures players == NextRoundPlayers(old(players), old(roomTable[r]))
      ensures roomTable == old(roomTable)[r := NextRoundRoom(old(roomTable[r]), pick)]
      ensures Valid()
    {
      var room := roomTable[r];
      if room.state.round + 1 <= room.settings.rounds {
        StartRound(r, room.state.round + 1, pick);
      } else {
        roomTable := roomTable[r := room.(state := MatchOverState(room.state))];
        SameMembershipConsistent(old(players), old(roomTable), rooms, nextRef, players, roomTable);
      }
    }

    /** startGame: every player's match score goes back to 0, and round 1 starts. */
    method StartGame(r: RoomRef, pick: nat)
      requires Valid() && r in roomTable
      modifies this`players, this`roomTable
      ensures var ps := old(roomTable[r].players);
        players == ClearAttempts(ResetScores(old(players), ps), ps)
      ensures roomTable == old(roomTable)[r := StartRoundRoom(old(roomTable[r]), 1, pick)]
      ensures Valid()
    {
      ResetRoomScores(roomTable[r].players);
      SameMembershipConsistent(old(players), roomTable, rooms, nextRef, players, roomTable);
      StartRound(r, 1, pick);
    }

    /** setWord(word): the word is stored and the round is played, with the round number
        and the chooser kept. */
    method SetWord(r: RoomRef, word: string)
      requires Valid() && r in roomTable
      modifies this`roomTable
      ensures var room := old(roomTable[r]);
        roomTable == old(roomTable)[r := room.(word := Some(word), state := PlayingState(room.state, room.state.round))]
      ensures Valid()
    {
      var room := roomTable[r];
      roomTable := roomTable[r := room.(word := Some(word), state := PlayingState(room.state, room.state.round))];
      SameMembershipConsistent(players, old(roomTable), rooms, nextRef, players, roomTable);
    }

    /** checkPlayerAttempts(p), while the round is played: the decision is shown and the
        winner, if any, gains a point in both scores; `threw` reports the exception the
        check can raise, which changes nothing. */
    method CheckPlayerAttempts(r: RoomRef, p: PlayerId) returns (threw: bool)
      requires Valid() && r in roomTable && p in players
      modifies this`players, this`roomTable
      ensures var room := old(roomTable[r]);
        var d := Decision(old(players), room, p);
        && threw == (d == Threw)
        && roomTable == old(roomTable)[r := Settle(room, OutcomeOf(d))]
        && players == Reward(old(players), OutcomeOf(d))
      ensures Valid()
    {
      var room := roomTable[r];
      threw := false;
      if room.state.status == Playing {
        var d := Decision(players, room, p);
        match d
        case Threw =>
          threw := true;
        case Done(o) =>
          roomTable := roomTable[r := Settle(room, o)];
          players := Reward(players, o);
      }
      SameMembershipConsistent(old(players), old(roomTable), rooms, nextRef, players, roomTable);
    }

    /** The whole state but the allocation counter. */
    function State(): ServerState
      reads this
    {
      ServerState(players, roomTable, rooms)
    }

    /** room.removePlayer(p); also what player.setRoom(null) does for a player in room `r`. */
    method RemovePlayer(r: RoomRef, p: PlayerId, pick: nat)
      requires Valid() && r in roomTable && p in players
      modifies this`players, this`roomTable, this`rooms
      ensures State() == Removed(old(State()), r, p, pick)
      ensures Valid()
    {
      var room := roomTable[r];
      if p !in room.players {
        return;
      }
      RemovedUnfold(State(), r, p, pick);
      Leave(r, p, pick);
      ConsistentExcept(players, roomTable, rooms, nextRef, r);
      UpdateRoomState(r);
    }

    /** The part of removePlayer before the directory update: the splice and
        setRoom(null), then nextRound when `p` was choosing the word. */
    method Leave(r: RoomRef, p: PlayerId, pick: nat)
      requires Valid() && r in roomTable && p in roomTable[r].players
      modifies this`players, this`roomTable
      ensures var room := old(roomTable[r]);
        var left := room.(players := Without(room.players, p));
        var pl := old(players)[p := old(players[p]).(room := None, score := 0)];
        var isChooser := room.state.chooser == Some(p);
        && players == (if isChooser then NextRoundPlayers(pl, left) else pl)
        && roomTable == old(roomTable)[r := if isChooser then NextRoundRoom(left, pick) else left]
      ensures Valid() && HoldsSlot(roomTable, rooms, r)
    {
      var isChooser := roomTable[r].state.chooser == Some(p);
      Splice(r, p);
      if isChooser {
        NextRound(r, pick);
      }
    }

    /** `players.splice(index, 1)` and player.setRoom(null) in removePlayer. */
    method Splice(r: RoomRef, p: PlayerId)
      requires Valid() && r in roomTable && p in roomTable[r].players
      modifies this`players, this`roomTable
      ensures roomTable == old(roomTable)[r := old(roomTable[r]).(players := Without(old(roomTable[r].players), p))]
      ensures players == old(players)[p := old(players[p]).(room := None, score := 0)]
      ensures Valid() && HoldsSlot(roomTable, rooms, r)
    {
      RemoveConsistent(players, roomTable, rooms, nextRef, r, p);
      var room := roomTable[r];
      roomTable := roomTable[r := room.(players := Without(room.players, p))];
      players := players[p := players[p].(room := None, score := 0)];
    }

    /** room.addPlayer(p), for a player that is in no room or already in this one (its
        only callers, connect and player.setRoom, ensure that). */
    method AddPlayer(r: RoomRef, p: PlayerId)
      requires Valid() && r in roomTable && p in players
      requires players[p].room.None? || players[p].room == Some(r)
      requires HoldsSlot(roomTable, rooms, r)
      modifies this`players, this`roomTable, this`rooms
      ensures State() == Added(old(State()), r, p)
      ensures Valid()
    {
      var room := roomTable[r];
      if p in room.players {
        return;
      }
      AddConsistent(players, roomTable, rooms, nextRef, r, p);
      roomTable := roomTable[r := room.(players := room.players + [p])];
      players := players[p := players[p].(room := Some(r), score := 0)];
      UpdateRoomState(r);
    }

    /** kickPlayer(p): player.setRoom(null) on a player of the room, which removes them. */
    method KickPlayer(r: RoomRef, p: PlayerId, pick: nat)
      requires Valid() && r in roomTable && p in players && p in roomTable[r].players
      modifies this`players, this`roomTable, this`rooms
      ensures State() == Removed(old(State()), r, p, pick)
      ensures Valid()
    {
      RemovePlayer(r, p, pick);
    }

    /** A connection creates a player with a new ID `id` and the name "Guest" followed
        by the random number `suffix` below 1000; the player is in no room. */
    method NewPlayer(id: PlayerId, suffix: nat)
      requires Valid() && id !in players && suffix < 1000
      modifies this`players
      ensures players == old(players)[id := PlayerRec("Guest" + Decimal(suffix), 0, 0, [], None)]
      ensures Valid()
    {
      players := players[id := PlayerRec("Guest" + Decimal(suffix), 0, 0, [], None)];
    }

    /** The setName handler. */
    method SetName(p: PlayerId, name: string) returns (res: Response)
      requires Valid() && p in players
      modifies this`players
      ensures players == old(players)[p := old(players[p]).(name := name)]
      ensures res == Success && Valid()
    {
      players := players[p := players[p].(name := name)];
      SameMembershipConsistent(old(players), roomTable, rooms, nextRef, players, roomTable);
      res := Success;
    }

    /** `new Room(id)`: a new room object, not yet in the directory. */
    method CreateRoom(id: string) returns (r: RoomRef)
      requires Valid()
      modifies this`roomTable, this`nextRef
      ensures r == old(nextRef) && nextRef == old(nextRef) + 1
      ensures roomTable == old(roomTable)[r := NewRoom(id)]
      ensures Valid()
    {
      r := nextRef;
      roomTable := roomTable[r := NewRoom(id)];
      nextRef := nextRef + 1;
      forall t | t in roomTable
        ensures Registered(roomTable, rooms, t)
      {
        if t != r {
          assert Registered(old(roomTable), rooms, t);
        }
      }
    }

    /** getRoom(id): the room registered under a non-empty `id`, created when there is
        none; for no ID, the available room drawn by `choice`, or a room with the new ID
        `newId` when none is available. Either way the room is registered under its
        ID. */
    method GetRoom(id: string, newId: string, choice: string) returns (r: RoomRef)
      requires Valid()
      requires newId !in rooms.all
      requires id == "" && |rooms.available| > 0 ==> choice in rooms.available
      modifies this`roomTable, this`nextRef, this`rooms
      ensures r == Target(old(rooms), old(nextRef), id, choice)
      ensures State() == Fetch(old(State()), old(nextRef), id, newId, choice)
      ensures nextRef == if Lookup(old(rooms), id, choice).Some? then old(nextRef) else old(nextRef) + 1
      ensures r in roomTable && roomTable[r].id in rooms.all && rooms.all[roomTable[r].id] == r
      ensures Valid()
    {
      if id != "" {
        if id in rooms.all {
          r := rooms.all[id];
        } else {
          r := CreateRoom(id);
        }
      } else if |rooms.available| > 0 {
        r := rooms.available[choice];
      } else {
        r := CreateRoom(newId);
      }
      RegisterConsistent(players, roomTable, rooms, nextRef, r);
      rooms := rooms.(all := rooms.all[roomTable[r].id := r]);
    }

    /** The connect handler: a full room refuses the player with error 1 (the lookup
        may still have registered it); otherwise the player leaves their current room
        and joins the new one. */
    method Connect(p: PlayerId, id: string, newId: string, choice: string, pick: nat) returns (res: Response)
      requires Valid() && p in players
      requires newId !in rooms.all
      requires id == "" && |rooms.available| > 0 ==> choice in rooms.available
      modifies this
      ensures var r := Target(old(rooms), old(nextRef), id, choice);
        var s1 := Fetch(old(State()), old(nextRef), id, newId, choice);
        var full := |s1.table[r].players| >= s1.table[r].maxPlayerCount;
        && (full ==> res == Failure(RoomFull) && State() == s1)
        && (!full ==>
              && res == Joined(s1.table[r].id)
              && var s2 := if old(players[p].room).Some? then Removed(s1, old(players[p].room.value), p, pick) else s1;
                 State() == Added(s2, r, p))
      ensures Valid()
    {
      var r := GetRoom(id, newId, choice);
      if |roomTable[r].players| >= roomTable[r].maxPlayerCount {
        return Failure(RoomFull);
      }
      var oldRoom := players[p].room;
      if oldRoom.Some? {
        RemovedSpec(State(), nextRef, oldRoom.value, p, pick);
        RemovedHoldsSlot(State(), nextRef, oldRoom.value, p, pick, r);
        RemovePlayer(oldRoom.value, p, pick);
      }
      AddPlayer(r, p);
      res := Joined(roomTable[r].id);
    }

    /** The disconnect handler: the player leaves their room, and is gone. */
    method Disconnect(p: PlayerId, pick: nat)
      requires Valid() && p in players
      modifies this`players, this`roomTable, this`rooms
      ensures var s1 := if old(players[p].room).Some? then Removed(old(State()), old(players[p].room.value), p, pick)
                        else old(State());
        State() == s1.(players := s1.players - {p})
      ensures p !in players && forall t :: t in roomTable ==> p !in roomTable[t].players
      ensures Valid()
    {
      var room := players[p].room;
      if room.Some? {
        RemovedSpec(State(), nextRef, room.value, p, pick);
        RemovePlayer(room.value, p, pick);
      }
      DropConsistent(players, roomTable, rooms, nextRef, p);
      players := players - {p};
    }

    /** The addAttempt handler: error 5 outside a room; otherwise the guess is rated,
        recorded, and the round checked, and the scoring is returned, or error -1000
        when the check throws. */
    method SubmitAttempt(p: PlayerId, guess: string) returns (res: Response)
      requires Valid() && p in players
      modifies this`players, this`roomTable
      ensures old(players[p].room).None? ==> res == Failure(NotInRoom) && State() == old(State())
      ensures old(players[p].room).Some? ==>
        var r := old(players[p].room.value);
        && res == SubmitReply(old(State()), r, p, guess)
        && State() == Submitted(old(State()), r, p, guess)
      ensures Valid()
    {
      if players[p].room.None? {
        return Failure(NotInRoom);
      }
      var r := players[p].room.value;
      var room := roomTable[r];
      var scoring := Scorer.Rate(if room.word.Some? then room.word.value else "", guess, room.settings.seeOpponents);
      players := players[p := players[p].(attempts := players[p].attempts + [scoring])];
      SameMembershipConsistent(old(players), roomTable, rooms, nextRef, players, roomTable);
      var threw := CheckPlayerAttempts(r, p);
      res := if threw then Failure(Unexpected) else Scored(scoring);
    }

    /** setSettings: the settings are replaced. */
    method SetSettings(r: RoomRef, settings: GameSettings)
      requires Valid() && r in roomTable
      modifies this`roomTable
      ensures roomTable == old(roomTable)[r := old(roomTable[r]).(settings := settings)]
      ensures Valid()
    {
      roomTable := roomTable[r := roomTable[r].(settings := settings)];
      SameMembershipConsistent(players, old(roomTable), rooms, nextRef, players, roomTable);
    }

    /** setAccessibility: privacy and capacity are replaced (players beyond a lowered
        capacity stay), and the directory is updated. */
    method SetAccessibility(r: RoomRef, isPrivate: bool, maxPlayerCount: int)
      requires Valid() && r in roomTable && HoldsSlot(roomTable, rooms, r)
      modifies this`roomTable, this`rooms
      ensures var room := old(roomTable[r]);
        && roomTable == old(roomTable)[r := room.(isPrivate := isPrivate, maxPlayerCount := maxPlayerCount)]
        && rooms == Update(old(rooms), room.id, r, |room.players|, maxPlayerCount, isPrivate)
      ensures Valid()
    {
      roomTable := roomTable[r := roomTable[r].(isPrivate := isPrivate, maxPlayerCount := maxPlayerCount)];
      SameMembershipConsistent(players, old(roomTable), rooms, nextRef, players, roomTable);
      ConsistentExcept(players, roomTable, rooms, nextRef, r);
      UpdateRoomState(r);
    }

    /** The start handler: administrator only (error -1). */
    method StartRequest(r: RoomRef, p: PlayerId, pick: nat) returns (res: Response)
      requires Valid() && r in roomTable
      modifies this`players, this`roomTable
      ensures !IsAdmin(old(roomTable[r]), p) ==> res == Failure(NotAdmin) && State() == old(State())
      ensures IsAdmin(old(roomTable[r]), p) ==> (res == Success
        && var ps := old(roomTable[r].players);
        && players == ClearAttempts(ResetScores(old(players), ps), ps)
        && roomTable == old(roomTable)[r := StartRoundRoom(old(roomTable[r]), 1, pick)])
      ensures Valid()
    {
      if !IsAdmin(roomTable[r], p) {
        return Failure(NotAdmin);
      }
      StartGame(r, pick);
      res := Success;
    }

    /** The nextRound handler: administrator only (error -1). */
    method NextRoundRequest(r: RoomRef, p: PlayerId, pick: nat) returns (res: Response)
      requires Valid() && r in roomTable
      modifies this`players, this`roomTable
      ensures !IsAdmin(old(roomTable[r]), p) ==> res == Failure(NotAdmin) && State() == old(State())
      ensures IsAdmin(old(roomTable[r]), p) ==> (res == Success
        && players == NextRoundPlayers(old(players), old(roomTable[r]))
        && roomTable == old(roomTable)[r := NextRoundRoom(old(roomTable[r]), pick)])
      ensures Valid()
    {
      if !IsAdmin(roomTable[r], p) {
        return Failure(NotAdmin);
      }
      NextRound(r, pick);
      res := Success;
    }

    /** The kickPlayer handler: administrator only (error -1); a `target` that is not in
        the room is ignored. */
    method KickRequest(r: RoomRef, p: PlayerId, target: PlayerId, pick: nat) returns (res: Response)
      requires Valid() && r in roomTable
      modifies this`players, this`roomTable, this`rooms
      ensures !IsAdmin(old(roomTable[r]), p) ==> res == Failure(NotAdmin) && State() == old(State())
      ensures IsAdmin(old(roomTable[r]), p) ==> (res == Success
        && State() == if target in old(roomTable[r].players) then Removed(old(State()), r, target, pick) else old(State()))
      ensures Valid()
    {
      if !IsAdmin(roomTable[r], p) {
        return Failure(NotAdmin);
      }
      if target in roomTable[r].players {
        KickPlayer(r, target, pick);
      }
      res := Success;
    }

    /** The setAccessibility handler: administrator only (error -1); the capacity is
        raised to at least 2. */
    method SetAccessibilityRequest(r: RoomRef, p: PlayerId, isPrivate: bool, maxPlayerCount: int) returns (res: Response)
      requires Valid() && r in roomTable
      modifies this`roomTable, this`rooms
      ensures !IsAdmin(old(roomTable[r]), p) ==> res == Failure(NotAdmin) && State() == old(State())
      ensures IsAdmin(old(roomTable[r]), p) ==> (res == Success
        && var room := old(roomTable[r]);
        var capacity := if maxPlayerCount < 2 then 2 else maxPlayerCount;
        && roomTable == old(roomTable)[r := room.(isPrivate := isPrivate, maxPlayerCount := capacity)]
        && rooms == Update(old(rooms), room.id, r, |room.players|, capacity, isPrivate)
        && roomTable[r].maxPlayerCount >= 2)
      ensures Valid()
    {
      if !IsAdmin(roomTable[r], p) {
        return Failure(NotAdmin);
      }
      assert Registered(roomTable, rooms, r);
      SetAccessibility(r, isPrivate, if maxPlayerCount < 2 then 2 else maxPlayerCount);
      res := Success;
    }

    /** The setSettings handler: administrator only (error -1). */
    method SetSettingsRequest(r: RoomRef, p: PlayerId, settings: GameSettings) returns (res: Response)
      requires Valid() && r in roomTable
      modifies this`roomTable
      ensures !IsAdmin(old(roomTable[r]), p) ==> res == Failure(NotAdmin) && State() == old(State())
      ensures IsAdmin(old(roomTable[r]), p) ==> (res == Success
        && roomTable == old(roomTable)[r := old(roomTable[r]).(settings := settings)])
      ensures Valid()
    {
      if !IsAdmin(roomTable[r], p) {
        return Failure(NotAdmin);
      }
      SetSettings(r, settings);
      res := Success;
    }

    /** The enterWord handler, registered for the room's players: only the player
        choosing the word may set it (error -2). */
    method EnterWordRequest(r: RoomRef, p: PlayerId, word: string) returns (res: Response)
      requires Valid() && r in roomTable && p in roomTable[r].players
      modifies this`roomTable
      ensures old(roomTable[r].state.chooser) != Some(p) ==> res == Failure(NotChooser) && State() == old(State())
      ensures old(roomTable[r].state.chooser) == Some(p) ==> (res == Success
        && var room := old(roomTable[r]);
        roomTable == old(roomTable)[r := room.(word := Some(word), state := PlayingState(room.state, room.state.round))])
      ensures Valid()
    {
      if roomTable[r].state.chooser != Some(p) {
        return Failure(NotChooser);
      }
      SetWord(r, word);
      res := Success;
    }
  }

  /** The directory update restores consistency after room `r` changed. */
  lemma UpdateConsistent(players: Players, table: RoomTable, rooms: Rooms, nextRef: RoomRef, r: RoomRef)
    requires r in table
    requires Core(players, table, rooms, nextRef) && RegisteredExcept(table, rooms, r)
    requires HoldsSlot(table, rooms, r)
    ensures var room := table[r];
      Consistent(players, table, Update(rooms, room.id, r, |room.players|, room.maxPlayerCount, room.isPrivate), nextRef)
  {
    var room := table[r];
    var id := room.id;
    var rooms' := Update(rooms, id, r, |room.players|, room.maxPlayerCount, room.isPrivate);
    UpdateKeepsListed(rooms, id, r, |room.players|, room.maxPlayerCount, room.isPrivate);
    forall x | x in rooms'.all
      ensures rooms'.all[x] in table && table[rooms'.all[x]].id == x
    {
      if x != id {
        assert x in rooms.all;
      }
    }
    forall t | t in table
      ensures Registered(table, rooms', t)
    {
      if t != r && |table[t].players| > 0 {
        assert Registered(table, rooms, t);
        assert table[t].id != id;
      }
    }
  }

  lemma ConsistentExcept(players: Players, table: RoomTable, rooms: Rooms, nextRef: RoomRef, r: RoomRef)
    requires Consistent(players, table, rooms, nextRef) && r in table
    ensures Core(players, table, rooms, nextRef) && RegisteredExcept(table, rooms, r)
  {
  }

  lemma RemovedUnfold(s: ServerState, r: RoomRef, p: PlayerId, pick: nat)
    requires r in s.table && p in s.players && p in s.table[r].players
    ensures var room := s.table[r];
      var left := room.(players := Without(room.players, p));
      var pl := s.players[p := s.players[p].(room := None, score := 0)];
      var isChooser := room.state.chooser == Some(p);
      Removed(s, r, p, pick) == ServerState(
        if isChooser then NextRoundPlayers(pl, left) else pl,
        s.table[r := if isChooser then NextRoundRoom(left, pick) else left],
        Update(s.rooms, left.id, r, |left.players|, left.maxPlayerCount, left.isPrivate))
  {
  }

  /** A player in no room is listed by no room, and can be dropped. */
  lemma DropConsistent(players: Players, table: RoomTable, rooms: Rooms, nextRef: RoomRef, p: PlayerId)
    requires Consistent(players, table, rooms, nextRef) && p in players && players[p].room.None?
    ensures forall t :: t in table ==> p !in table[t].players
    ensures Consistent(players - {p}, table, rooms, nextRef)
  {
  }

  /** Removing a player from room `o` leaves the ID slot of a registered room `r` with
      `r` or free. */
  lemma RemovedHoldsSlot(s: ServerState, nextRef: RoomRef, o: RoomRef, p: PlayerId, pick: nat, r: RoomRef)
    requires Consistent(s.players, s.table, s.rooms, nextRef)
    requires o in s.table && r in s.table && p in s.players
    requires s.table[r].id in s.rooms.all && s.rooms.all[s.table[r].id] == r
    ensures var s' := Removed(s, o, p, pick);
      r in s'.table && s'.table[r].id == s.table[r].id && HoldsSlot(s'.table, s'.rooms, r)
  {
    if p in s.table[o].players {
      assert Registered(s.table, s.rooms, o);
    }
  }

  lemma ClearStep(players: Players, ps: seq<PlayerId>, i: nat)
    requires i < |ps| && forall q :: q in ps ==> q in players
    ensures var c := ClearAttempts(players, ps[..i]);
      ClearAttempts(players, ps[..i + 1]) == c[ps[i] := c[ps[i]].(attempts := [])]
  {
    assert ps[..i + 1] == ps[..i] + [ps[i]];
  }

  lemma ResetStep(players: Players, ps: seq<PlayerId>, i: nat)
    requires i < |ps| && forall q :: q in ps ==> q in players
    ensures var c := ResetScores(players, ps[..i]);
      ResetScores(players, ps[..i + 1]) == c[ps[i] := c[ps[i]].(score := 0)]
  {
    assert ps[..i + 1] == ps[..i] + [ps[i]];
  }
}
