/** The pure parts of a room's game logic (src/server/game/Room.ts and Player.ts):
    the partial state merge of setState, the chooser rotation of startRound,
    Player.guessedWord, and the round decision of checkPlayerAttempts. */
module RoomLogic {
  import opened GameTypes

  // ---------------------------------------------------------------------------
  // setState: `{round: this.state.round, ...state}`

  /** The state after setState: every field is replaced by the one supplied, except
      `round`, which is kept when none is supplied. */
  function SetState(current: GameState, round: Option<int>, status: GameStatus,
                    chooser: Option<PlayerId>, winner: Option<PlayerId>): (s: GameState)
    ensures s.round == (if round.Some? then round.value else current.round)
    ensures s.status == status && s.chooser == chooser && s.winner == winner
  {
    GameState(status, if round.Some? then round.value else current.round, chooser, winner)
  }

  /** The state entered when a round is decided (`setState({status, winnerID})`):
      it keeps the round and drops the chooser. */
  function DecidedState(current: GameState, winner: Option<PlayerId>): (s: GameState)
    ensures s.status == ShowingWinner && s.winner == winner
    ensures s.round == current.round
    ensures s.chooser == None
  {
    SetState(current, None, ShowingWinner, None, winner)
  }

  /** The state entered by startRound in `entered` mode. */
  function ChoosingState(current: GameState, round: int, chooser: Option<PlayerId>): (s: GameState)
    ensures s == GameState(ChoosingWord, round, chooser, None)
  {
    SetState(current, Some(round), ChoosingWord, chooser, None)
  }

  /** The state entered by setWord: the chooser is kept, the winner dropped. */
  function PlayingState(current: GameState, round: int): (s: GameState)
    ensures s == GameState(Playing, round, current.chooser, None)
  {
    SetState(current, Some(round), Playing, current.chooser, None)
  }

  /** The state entered when the last round is over (`{...this.state, status: "waiting"}`):
      only the status changes. */
  function MatchOverState(current: GameState): (s: GameState)
    ensures s == current.(status := Waiting)
  {
    SetState(current, Some(current.round), Waiting, current.chooser, current.winner)
  }

  // ---------------------------------------------------------------------------
  // Chooser rotation

  /** `findIndex(player => player.getID() == id)`: the first position of `id`, or -1. */
  function FindIndex(ps: seq<PlayerId>, id: PlayerId): (k: int)
    ensures -1 <= k < |ps|
    ensures k == -1 <==> id !in ps
    ensures 0 <= k ==> ps[k] == id && id !in ps[..k]
  {
    if ps == [] then -1
    else if ps[0] == id then 0
    else
      var k := FindIndex(ps[1..], id);
      assert 0 <= k ==> ps[1..][..k] == ps[1..k + 1];
      if k == -1 then -1 else k + 1
  }

  /** The player that chooses the word of a new round in `entered` mode: the one after
      the previous chooser in join order, wrapping around; the first player when there
      is no previous chooser or they left; nobody in an empty room. */
  function NextChooser(ps: seq<PlayerId>, previous: Option<PlayerId>): Option<PlayerId> {
    var current := if previous.Some? && previous.value != "" then FindIndex(ps, previous.value) else -1;
    if |ps| == 0 then None else Some(ps[(current + 1) % |ps|])
  }

  /** The rotation: after the player at position k comes the one at k + 1, and after
      the last comes the first. */
  lemma NextChooserAfter(ps: seq<PlayerId>, k: nat)
    requires k < |ps| && ps[k] != ""
    requires forall i, j :: 0 <= i < j < |ps| ==> ps[i] != ps[j]
    ensures NextChooser(ps, Some(ps[k])) == Some(ps[(k + 1) % |ps|])
  {
    assert ps[k] in ps;
    var f := FindIndex(ps, ps[k]);
    assert forall j :: 0 <= j < |ps| && ps[j] == ps[k] ==> j == k;
    assert f == k;
  }

  /** Without a previous chooser, or when they left the room, the first player chooses. */
  lemma NextChooserFirst(ps: seq<PlayerId>, previous: Option<PlayerId>)
    requires |ps| > 0
    requires previous.None? || previous.value !in ps
    ensures NextChooser(ps, previous) == Some(ps[0])
  {
  }

  /** In a room of three, the chooser goes round player 0, 1, 2 and back to 0. */
  lemma ThreePlayerRotation(a: PlayerId, b: PlayerId, c: PlayerId)
    requires a != b && b != c && a != c && a != "" && b != "" && c != ""
    ensures NextChooser([a, b, c], None) == Some(a)
    ensures NextChooser([a, b, c], Some(a)) == Some(b)
    ensures NextChooser([a, b, c], Some(b)) == Some(c)
    ensures NextChooser([a, b, c], Some(c)) == Some(a)
  {
    assert [a, b, c][0] == a && [a, b, c][1] == b && [a, b, c][2] == c;
    NextChooserFirst([a, b, c], None);
    NextChooserAfter([a, b, c], 0);
    NextChooserAfter([a, b, c], 1);
    NextChooserAfter([a, b, c], 2);
  }

  /** The word startRound stores in `randomized` mode, `words[floor(random * length)]`:
      some entry of the list, none for an empty list. The random draw is `index`, taken
      modulo the length so that every draw is a valid index. */
  function WordAt(words: seq<string>, index: nat): (r: Option<string>)
    ensures r.None? <==> |words| == 0
    ensures r.Some? ==> r.value in words
  {
    if |words| == 0 then None else Some(words[index % |words|])
  }

  /** Every entry of a non-empty list can be drawn. */
  lemma WordAtReaches(words: seq<string>, i: nat)
    requires i < |words|
    ensures WordAt(words, i) == Some(words[i])
  {
  }

  // ---------------------------------------------------------------------------
  // Deciding a round

  /** A computation that may raise an exception (caught by withErrorHandling). */
  datatype Checked<T> = Done(value: T) | Threw

  /** Player.guessedWord: every verdict of the last attempt is `matches`; reading the
      last attempt of an empty list throws. */
  function GuessedWord(attempts: seq<Attempt>): (r: Checked<bool>)
    ensures r == Threw <==> attempts == []
    ensures r == Done(true) <==> attempts != [] && AllMatch(attempts[|attempts| - 1])
  {
    if attempts == [] then Threw else Done(AllMatch(attempts[|attempts| - 1]))
  }

  /** A player is through with the round: all attempts used, or the last attempt
      guessed the word. A player without attempts has not guessed it. */
  predicate Finished(attempts: seq<Attempt>, allowed: int) {
    |attempts| == allowed || (attempts != [] && AllMatch(attempts[|attempts| - 1]))
  }

  /** `players.every(p => p.getAttempts().length == allowed || p.guessedWord())` as the
      source evaluates it: left to right, stopping at the first player that is not
      through, and throwing when guessedWord reaches a player with no attempts. */
  function EveryFinishedAsWritten(ids: seq<PlayerId>, attempts: map<PlayerId, seq<Attempt>>, allowed: int): (r: Checked<bool>)
    requires forall i :: 0 <= i < |ids| ==> ids[i] in attempts
    ensures r == Done(true) <==> forall i :: 0 <= i < |ids| ==> Finished(attempts[ids[i]], allowed)
    ensures r == Threw ==> exists i :: 0 <= i < |ids| && attempts[ids[i]] == [] && allowed != 0
    ensures (forall i :: 0 <= i < |ids| ==> attempts[ids[i]] != []) ==> r != Threw
  {
    if ids == [] then Done(true)
    else
      var a := attempts[ids[0]];
      var rest := EveryFinishedAsWritten(ids[1..], attempts, allowed);
      assert forall i :: 1 <= i < |ids| ==> ids[1..][i - 1] == ids[i];
      if |a| == allowed then rest
      else match GuessedWord(a)
        case Threw => Threw
        case Done(g) => if g then rest else Done(false)
  }

  /** `players.reduce((min, p) => Math.min(p.getAttempts().length, min), Infinity)`;
      `None` is Infinity. */
  function MinAttempts(ids: seq<PlayerId>, attempts: map<PlayerId, seq<Attempt>>): (m: Option<nat>)
    requires forall i :: 0 <= i < |ids| ==> ids[i] in attempts
    ensures m.None? <==> ids == []
    ensures m.Some? ==> exists i :: 0 <= i < |ids| && |attempts[ids[i]]| == m.value
    ensures m.Some? ==> forall i :: 0 <= i < |ids| ==> m.value <= |attempts[ids[i]]|
  {
    if ids == [] then None
    else
      var n := |attempts[ids[0]]|;
      var rest := MinAttempts(ids[1..], attempts);
      assert forall i :: 1 <= i < |ids| ==> ids[1..][i - 1] == ids[i];
      if rest.None? || n <= rest.value then Some(n) else rest
  }

  /** `players.filter(p => p.getAttempts().length == min)`. */
  function WithAttempts(ids: seq<PlayerId>, attempts: map<PlayerId, seq<Attempt>>, min: Option<nat>): (r: seq<PlayerId>)
    requires forall i :: 0 <= i < |ids| ==> ids[i] in attempts
    ensures forall id :: id in r <==> id in ids && min == Some(|attempts[id]|)
    ensures |r| <= |ids|
    ensures (forall i, j :: 0 <= i < j < |ids| ==> ids[i] != ids[j]) ==>
      forall i, j :: 0 <= i < j < |r| ==> r[i] != r[j]
  {
    if ids == [] then []
    else
      var rest := WithAttempts(ids[1..], attempts, min);
      assert forall id :: id in ids[1..] ==> id in ids;
      assert forall id :: id in ids ==> id == ids[0] || id in ids[1..];
      if min == Some(|attempts[ids[0]]|) then [ids[0]] + rest else rest
  }

  datatype Outcome = NoDecision | Winner(id: PlayerId) | Draw

  /** The attempts-mode verdict once every player is through: the players with the
      fewest attempts; one of them wins alone, otherwise a draw. */
  function Ranked(ids: seq<PlayerId>, attempts: map<PlayerId, seq<Attempt>>): (o: Outcome)
    requires forall i :: 0 <= i < |ids| ==> ids[i] in attempts
    ensures o != NoDecision
    ensures o.Winner? ==> o.id in ids
  {
    var best := WithAttempts(ids, attempts, MinAttempts(ids, attempts));
    if |best| == 1 then assert best[0] in best; Winner(best[0]) else Draw
  }

  /** The ranking never declines to decide; a winner is a player of the room with
      strictly fewer attempts than every other player, and a draw means that every
      player is matched or beaten by someone else. */
  lemma RankedSound(ids: seq<PlayerId>, attempts: map<PlayerId, seq<Attempt>>)
    requires forall i :: 0 <= i < |ids| ==> ids[i] in attempts
    requires forall i, j :: 0 <= i < j < |ids| ==> ids[i] != ids[j]
    ensures Ranked(ids, attempts).Winner? ==>
      var w := Ranked(ids, attempts).id;
      w in ids && forall i :: 0 <= i < |ids| && ids[i] != w ==> |attempts[w]| < |attempts[ids[i]]|
    ensures Ranked(ids, attempts) == Draw ==>
      forall w :: w in ids ==> exists i :: 0 <= i < |ids| && ids[i] != w && |attempts[ids[i]]| <= |attempts[w]|
  {
    var m := MinAttempts(ids, attempts);
    var best := WithAttempts(ids, attempts, m);
    if |best| == 1 {
      RankedWinner(ids, attempts);
    } else {
      forall w | w in ids
        ensures exists i :: 0 <= i < |ids| && ids[i] != w && |attempts[ids[i]]| <= |attempts[w]|
      {
        var k :| 0 <= k < |ids| && |attempts[ids[k]]| == m.value;
        if ids[k] == w {
          // w has the fewest attempts, and it is not the only one
          assert w in best;
          var other := if best[0] != w then best[0] else best[1];
          assert other in best;
          var j :| 0 <= j < |ids| && ids[j] == other;
          assert |attempts[ids[j]]| == m.value;
        }
      }
    }
  }

  /** The single player with the fewest attempts has strictly fewer than any other. */
  lemma RankedWinner(ids: seq<PlayerId>, attempts: map<PlayerId, seq<Attempt>>)
    requires forall i :: 0 <= i < |ids| ==> ids[i] in attempts
    requires |WithAttempts(ids, attempts, MinAttempts(ids, attempts))| == 1
    ensures var w := WithAttempts(ids, attempts, MinAttempts(ids, attempts))[0];
      w in ids && forall i :: 0 <= i < |ids| && ids[i] != w ==> |attempts[w]| < |attempts[ids[i]]|
  {
    var m := MinAttempts(ids, attempts);
    var best := WithAttempts(ids, attempts, m);
    assert best[0] in best;
    assert best == [best[0]];
    forall i | 0 <= i < |ids| && ids[i] != best[0]
      ensures |attempts[best[0]]| < |attempts[ids[i]]|
    {
      assert ids[i] !in best;
    }
  }

  /** checkPlayerAttempts as the source writes it, once `submitter` has added an
      attempt, with `ids` the room's players in join order and `attempts` every
      player's attempts: guessedWord is evaluated for the submitter first, and in
      attempts mode for every player the `every` reaches, so a player without
      attempts makes it throw. */
  function DecideAsWritten(mode: ScoringMode, allowed: int, submitter: PlayerId, ids: seq<PlayerId>,
                           attempts: map<PlayerId, seq<Attempt>>): Checked<Outcome>
    requires submitter in attempts
    requires forall i :: 0 <= i < |ids| ==> ids[i] in attempts
  {
    var mine := attempts[submitter];
    var isLastAttempt := |mine| == allowed;
    match GuessedWord(mine)
    case Threw => Threw
    case Done(guessed) =>
      match mode
      case Speed =>
        if guessed then Done(Winner(submitter))
        else if isLastAttempt && forall i :: 0 <= i < |ids| ==> |attempts[ids[i]]| == allowed then Done(Draw)
        else Done(NoDecision)
      case FewestAttempts =>
        if guessed || isLastAttempt then
          match EveryFinishedAsWritten(ids, attempts, allowed)
          case Threw => Threw
          case Done(all) =>
            if all then Done(Ranked(ids, attempts)) else Done(NoDecision)
        else Done(NoDecision)
  }

  /** checkPlayerAttempts' decision as intended: a player without attempts simply has
      not guessed the word. Speed mode: the submitter wins by guessing the word; a draw
      needs the submitter on exactly the last attempt and every player on exactly
      `allowed` attempts. Attempts mode: once the submitter and every player are
      through, the ranking decides. A winner is the submitter or a player of the room. */
  function Decide(mode: ScoringMode, allowed: int, submitter: PlayerId, ids: seq<PlayerId>,
                  attempts: map<PlayerId, seq<Attempt>>): (o: Outcome)
    requires submitter in attempts
    requires forall i :: 0 <= i < |ids| ==> ids[i] in attempts
    ensures o.Winner? ==> o.id == submitter || o.id in ids
  {
    var mine := attempts[submitter];
    match mode
    case Speed =>
      if mine != [] && AllMatch(mine[|mine| - 1]) then Winner(submitter)
      else if |mine| == allowed && forall i :: 0 <= i < |ids| ==> |attempts[ids[i]]| == allowed then Draw
      else NoDecision
    case FewestAttempts =>
      if Finished(mine, allowed) && forall i :: 0 <= i < |ids| ==> Finished(attempts[ids[i]], allowed)
      then Ranked(ids, attempts)
      else NoDecision
  }

  /** Whenever the code as written does not throw, it decides as intended; and it cannot
      throw once every player of the room and the submitter have an attempt. */
  lemma DecideAgrees(mode: ScoringMode, allowed: int, submitter: PlayerId, ids: seq<PlayerId>,
                     attempts: map<PlayerId, seq<Attempt>>)
    requires submitter in attempts
    requires forall i :: 0 <= i < |ids| ==> ids[i] in attempts
    ensures DecideAsWritten(mode, allowed, submitter, ids, attempts) != Threw ==>
      DecideAsWritten(mode, allowed, submitter, ids, attempts) == Done(Decide(mode, allowed, submitter, ids, attempts))
    ensures attempts[submitter] != [] && (forall i :: 0 <= i < |ids| ==> attempts[ids[i]] != []) ==>
      DecideAsWritten(mode, allowed, submitter, ids, attempts) != Threw
  {
  }

  /** As written, only attempts mode can throw, and only when some player of the room
      has no attempt. */
  lemma DecideThrows(mode: ScoringMode, allowed: int, submitter: PlayerId, ids: seq<PlayerId>,
                     attempts: map<PlayerId, seq<Attempt>>)
    requires submitter in attempts && attempts[submitter] != []
    requires forall i :: 0 <= i < |ids| ==> ids[i] in attempts
    ensures DecideAsWritten(mode, allowed, submitter, ids, attempts) == Threw ==>
      mode == FewestAttempts && allowed != 0 && exists i :: 0 <= i < |ids| && attempts[ids[i]] == []
  {
  }

  /** In attempts mode, player `a` guesses the word on the first attempt while player `b`
      has not entered one: as written, guessedWord throws for `b` and the submission fails
      with an unexpected error (the attempt is still recorded); as intended, the round
      simply goes on. */
  lemma FirstGuessWhileOpponentIdle(a: PlayerId, b: PlayerId, w: Attempt)
    requires a != b && AllMatch(w)
    ensures var attempts := map[a := [w], b := []];
      && DecideAsWritten(FewestAttempts, 6, a, [a, b], attempts) == Threw
      && Decide(FewestAttempts, 6, a, [a, b], attempts) == NoDecision
  {
    var attempts := map[a := [w], b := []];
    assert [a, b][0] == a && [a, b][1] == b;
    assert [a, b][1..] == [b];
    assert EveryFinishedAsWritten([b], attempts, 6) == Threw;
    assert !Finished(attempts[[a, b][1]], 6);
  }

  /** Speed mode: the submitter wins iff their last attempt is all `matches`; the round
      is a draw iff they did not guess, are on exactly their last attempt, and every
      player has exactly `allowed` attempts. */
  lemma DecideSpeed(allowed: int, submitter: PlayerId, ids: seq<PlayerId>, attempts: map<PlayerId, seq<Attempt>>)
    requires submitter in attempts && attempts[submitter] != []
    requires forall i :: 0 <= i < |ids| ==> ids[i] in attempts
    ensures var mine := attempts[submitter];
      var d := Decide(Speed, allowed, submitter, ids, attempts);
      && (d == Winner(submitter) <==> AllMatch(mine[|mine| - 1]))
      && (d.Winner? ==> d.id == submitter)
      && (d == Draw <==>
            !AllMatch(mine[|mine| - 1]) && |mine| == allowed
            && forall i :: 0 <= i < |ids| ==> |attempts[ids[i]]| == allowed)
  {
  }

  /** Attempts mode: a decision (a winner or a draw) is made exactly when the submitter
      and every player are through; it is then the ranking of the room's players. */
  lemma DecideFewest(allowed: int, submitter: PlayerId, ids: seq<PlayerId>, attempts: map<PlayerId, seq<Attempt>>)
    requires submitter in attempts
    requires forall i :: 0 <= i < |ids| ==> ids[i] in attempts
    ensures var d := Decide(FewestAttempts, allowed, submitter, ids, attempts);
      d != NoDecision <==>
        Finished(attempts[submitter], allowed)
        && forall i :: 0 <= i < |ids| ==> Finished(attempts[ids[i]], allowed)
    ensures var d := Decide(FewestAttempts, allowed, submitter, ids, attempts);
      d != NoDecision ==> d == Ranked(ids, attempts)
  {
  }

  /** Two players who both guess the word on their fourth attempt: a draw. */
  lemma FewestAttemptsTie(a: PlayerId, b: PlayerId, x: Attempt, y: Attempt, w: Attempt)
    requires a != b && !AllMatch(x) && !AllMatch(y) && AllMatch(w)
    ensures var attempts := map[a := [x, x, y, w], b := [y, x, y, w]];
      Decide(FewestAttempts, 6, a, [a, b], attempts) == Draw
  {
    var attempts := map[a := [x, x, y, w], b := [y, x, y, w]];
    assert [a, b][0] == a && [a, b][1] == b;
    assert Finished(attempts[a], 6) && Finished(attempts[b], 6);
    var best := WithAttempts([a, b], attempts, MinAttempts([a, b], attempts));
    assert a in best && b in best;
    assert |best| != 1;
  }
}
