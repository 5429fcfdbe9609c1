# Waddles: a model of the multiplayer word-guessing server

Waddles is a multiplayer Wordle game. A server holds rooms. Players join a room
by its ID, or are put in a random public room with space left. The first player
of a room is its administrator. They change the settings and the accessibility
of the room, start a match, move to the next round and kick players. In every
round each player guesses a secret word. The word is drawn at random from the
word list, or it is entered by a chooser who rotates through the room. The
server scores every guess letter by letter and decides the round: in *speed*
mode the first player to guess wins; in *attempts* mode the fewest attempts
win. The client keeps the guess being typed next to the verdicts the server
sent, shows the best verdict per letter on its keyboard, and enforces the
guess-entry rules.

The model has these modules:

- `GameTypes` (`types.dfy`): verdicts, attempts, game state and settings.
- `Scorer` (`scorer.dfy`): `Room.rate`. The two loops are methods proved
  against a pure two-pass definition. Lemmas state the Wordle properties of
  that definition: exact matches, no `unknown` verdicts, and duplicate letters
  never over-reported.
- `RoomLogic` (`room_logic.dfy`): the pure parts of a room. These are the
  partial state merge of `setState`, the chooser rotation, `guessedWord`, and
  the round decision of `checkPlayerAttempts`, both as written (it can throw)
  and as intended.
- `Directory` (`directory.dfy`): the `rooms = {all, available}` directory of
  `App.js` and its `updateRoomState`, as written and corrected.
- `Server` (`server.dfy`): one `World` class holding every player, every room
  object and the directory. Its methods are the room and player operations and
  the socket handlers. Each is proved against a function of the old state. The
  `World` runs the corrected directory update (see "## Findings"), and for that
  corrected server each method keeps the invariant `Valid()`. The invariant says:
  - players and rooms agree on membership;
  - nobody is listed twice;
  - the directory only lists rooms under their own ID;
  - every room with players is registered. The program as written breaks this
    last point; `Directory.ReconnectLosesRoom` shows how.
- `Events` (`events.dfy`): the `EventManager` listener registry.
- `Shuffle` (`shuffle.dfy`): the in-place Fisher–Yates `shuffleArray`.
- `Words` (`words.dfy`): `hasWord`.
- `ClientSelf` (`client_self.dfy`), `Keyboard` (`keyboard.dfy`), `OwnView`
  (`own_view.dfy`): the client's guess buffer, the keyboard colouring and
  layout fillers, and `processKey`.

Randomness and identifiers are parameters:

- the word index drawn by `startRound` (`pick`, taken modulo the list's length,
  so every draw is an index of the list and every index can be drawn);
- the random available room (`choice`, a key of `available`);
- a fresh room ID (`newId`, not in use);
- the guest-name number (`suffix < 1000`);
- the shuffle's swap partners (`picks[i] <= i`).

An absent ID (`if (ID)`) is the empty string.

Where the specification and the code disagree, the model follows the code:

- `rate` returns one verdict per letter of the WORD (the loop runs over
  `wordChars`), not one per letter of the guess.
- When `seeOpponents` is off, the letters are dropped from the scoring that is
  stored and also from the scoring returned to the guessing player, not only
  from what the others see.

## Model

| member | source | states |
|---|---|---|
| Scorer.Rate | src/server/game/Room.ts:428-459 | Equals the two-pass score. One verdict per letter of the word. `matches` exactly where the guess has the word's letter. Never `unknown`. The guessed letter is kept only when `seeOpponents` is set. |
| Scorer.ExactPass | src/server/game/Room.ts:429-443 | The reverse scan with splicing yields, in word order, `matches` where the guess matches and `unknown` elsewhere. What is left of the working copy is the word's unmatched letters in order. |
| Scorer.PartialPass | src/server/game/Room.ts:446-454 | The left-to-right map equals the partial-match definition. Each non-match becomes `contains` while its letter is still in the pool, consuming one instance; otherwise it becomes `absent`. |
| Scorer.ScoreAt | src/server/game/Room.ts:434-458 | At each word position: `matches` iff exact, never `unknown`, letter per `seeOpponents`. The verdict kind does not depend on `seeOpponents`. |
| Scorer.LetterBound | src/server/game/Room.ts:434-454 | For every letter, exact matches plus `contains` never exceed its occurrences in the word. The `contains` count is the minimum of the unmatched instances and the non-matching guesses of it. |
| Scorer.ContainsIff | src/server/game/Room.ts:446-454 | A non-matching guessed letter is `contains` iff fewer earlier non-matching guesses of it exist than instances left after the exact matches. |
| Scorer.SecondPassCounts | src/server/game/Room.ts:446-454 | The partial pass's `contains` count per letter is min(pool, candidates). Exact matches are kept. |
| Scorer.SecondPassAt | src/server/game/Room.ts:446-454 | A position becomes `contains` iff an unconsumed instance remains when the pass reaches it. |
| Scorer.SecondPassShape | src/server/game/Room.ts:446-454 | The partial pass keeps letters and exact matches and leaves no `unknown`. |
| Scorer.PoolCount | src/server/game/Room.ts:434-437 | The pool after the exact pass holds the word's occurrences of each letter minus its exact matches. |
| Scorer.FirstPassAt | src/server/game/Room.ts:434-442 | The exact pass at position i is `matches` iff the guess has the word's letter there, carrying the guessed letter. |
| Scorer.RemoveAt | src/server/game/Room.ts:452 | `splice(k, 1)` removes one instance of the letter at k from the pool's multiset. |
| Scorer.IndexOf | src/server/game/Room.ts:449 | `indexOf`: -1 iff absent (or no letter), else the first position of the letter. |
| Scorer.Classify | src/server/game/Room.ts:447-453 | An exact match is kept; otherwise `contains` iff the letter is in the pool, `absent` otherwise; the letter is unchanged. |
| Scorer.Strip | src/server/game/Room.ts:458 | Keeps every verdict's kind and drops its letter. |
| RoomLogic.SetState | src/server/game/Room.ts:253-256 | Every field is replaced by the one supplied, except `round`, which is kept when none is supplied. |
| RoomLogic.DecidedState | src/server/game/Room.ts:376-379 | The decided state shows the winner, keeps the round and drops the chooser. |
| RoomLogic.ChoosingState | src/server/game/Room.ts:302-306 | `entered` mode: choosing the word, with the new round and chooser and no winner. |
| RoomLogic.PlayingState | src/server/game/Room.ts:319-326 | setWord: playing, with the given round; the chooser is kept and the winner dropped. |
| RoomLogic.MatchOverState | src/server/game/Room.ts:276-279 | After the last round only the status changes, to waiting. |
| RoomLogic.FindIndex | src/server/game/Room.ts:297 | `findIndex`: -1 iff the ID is absent, else its first position. |
| RoomLogic.NextChooserAfter | src/server/game/Room.ts:295-299 | After the chooser at position k comes the player at k+1, wrapping to the first. |
| RoomLogic.NextChooserFirst | src/server/game/Room.ts:295-299 | With no previous chooser, or one who left, the first player chooses. |
| RoomLogic.ThreePlayerRotation | src/server/game/Room.ts:295-301 | In a room of three the chooser goes 0, 1, 2 and back to 0. |
| RoomLogic.WordAt | src/server/game/Room.ts:307-310 | The random word is some entry of the list, dotted ones included; none exactly for an empty list. |
| RoomLogic.WordAtReaches | src/server/game/Room.ts:308-310 | Every entry of a non-empty list can be drawn. |
| RoomLogic.GuessedWord | src/server/game/Player.ts:154-157 | Throws iff there are no attempts. True iff the last attempt is all `matches`. |
| RoomLogic.EveryFinishedAsWritten | src/server/game/Room.ts:354-358 | True iff every player used all attempts or guessed. It throws only when it reaches a player with no attempts, and never when everybody has one. |
| RoomLogic.MinAttempts | src/server/game/Room.ts:360-363 | The fewest attempts of any player, attained by one of them; none (Infinity) for no players. |
| RoomLogic.WithAttempts | src/server/game/Room.ts:364-366 | Exactly the players with the given number of attempts; no duplicates. |
| RoomLogic.Ranked | src/server/game/Room.ts:360-369 | Always decides; a winner is a player of the room. |
| RoomLogic.RankedSound | src/server/game/Room.ts:360-369 | A winner has strictly fewer attempts than every other player. A draw means every player is matched or beaten by another. |
| RoomLogic.RankedWinner | src/server/game/Room.ts:367-368 | The single player with the fewest attempts has strictly fewer than anyone else. |
| RoomLogic.Decide | src/server/game/Room.ts:332-387 | The intended decision. A winner is the submitter or a player of the room. |
| RoomLogic.DecideAgrees | src/server/game/Room.ts:332-387 | When the code as written does not throw, it decides as intended. It cannot throw when the submitter and every player have an attempt. |
| RoomLogic.DecideThrows | src/server/game/Room.ts:352-358 | As written, only attempts mode throws, and only when some player has no attempt. |
| RoomLogic.FirstGuessWhileOpponentIdle | src/server/game/Room.ts:352-358 | Example: in attempts mode a first-try guess while the opponent has no attempt throws. As intended, the round goes on. |
| RoomLogic.DecideSpeed | src/server/game/Room.ts:344-351 | Speed mode: the submitter wins iff their last attempt is all `matches`. A draw iff they did not guess, they are on exactly the last attempt, and everybody has exactly `allowed` attempts. |
| RoomLogic.DecideFewest | src/server/game/Room.ts:352-371 | Attempts mode: decided iff the submitter and everybody are through; the decision is then the ranking. |
| RoomLogic.FewestAttemptsTie | src/server/game/Room.ts:364-369 | Two players guessing on the same attempt draw. |
| Directory.UpdateAsWritten | build/server/App.js:39-52 | An empty room leaves both maps. Otherwise `all` is never written. |
| Directory.Update | build/server/App.js:39-52 | Corrected: an empty room leaves both maps. A room in use is registered in `all` and is available iff it has space and is public. Other IDs are untouched. |
| Directory.UpdateKeepsListed | build/server/App.js:39-52 | The corrected update keeps every available room registered, and registers the room exactly while it has players. |
| Directory.UpdateAgrees | build/server/App.js:39-52 | Both updates agree on `available`. They agree entirely when the room was already registered. |
| Directory.ReconnectLosesRoom | build/server/App.js:39-52 | Counterexample: as written, removing and re-adding the only player leaves the room available but unregistered. The corrected update keeps it registered. |
| Server.NewRoom | src/server/game/Room.ts:13-49 | A new room is public, holds two players at most, has the default settings and initial state, and is empty. |
| Server.Decimal | src/server/game/Player.ts:14 | The guest-name number is a non-empty run of decimal digits, at most three for a number below 1000. |
| Server.DecimalValue | src/server/game/Player.ts:14 | The digits denote the drawn number. |
| Server.Without | src/server/game/Room.ts:204-206 | Splicing out a player leaves the list one shorter: the players before it in place, those after it moved down by one, in order. With no duplicates, membership is the old one minus that player. |
| Server.ClearAttempts | src/server/game/Room.ts:289-291 | The room's players have no attempts; nothing else changes. |
| Server.ResetScores | src/server/game/Room.ts:262-264 | The room's players' match scores are 0; nothing else changes. |
| Server.StartRoundRoom | src/server/game/Room.ts:287-312 | `entered` mode: the next chooser is picked and recorded and the room waits for their word. `randomized` mode: the picked word is set and the round is played. Members and settings are kept. |
| Server.NextRoundRoom | src/server/game/Room.ts:271-281 | The next round starts if one is left. Otherwise only the status changes, to waiting. |
| Server.AttemptsOf | src/server/game/Room.ts:341-365 | Every player's attempts. |
| Server.Settle | src/server/game/Room.ts:375-379 | No decision changes nothing; a winner or draw shows the decision. |
| Server.Reward | src/server/game/Room.ts:380-383 | Only the winner's score and total score go up, by one each. |
| Server.Decision | src/server/game/Room.ts:332-334 | Outside the playing phase nothing is decided; a winner is a known player. |
| Server.RemovedSpec | src/server/game/Room.ts:203-227 | After removal the player is in no room with score 0. The others keep their rooms. The room keeps its other players in order. An emptied room leaves the directory. |
| Server.AddedSpec | src/server/game/Room.ts:97-102 | The player joins at the end, is in the room with score 0, and the room is registered. |
| Server.FetchSpec | build/server/App.js:13-31 | Finding an existing room changes nothing. Otherwise a new empty room is created under the given or new ID. |
| Server.SubmittedSpec | src/server/game/Player.ts:47-59 | Exactly one attempt, the scoring, is appended to the submitter; it has one verdict per letter of the word. No other player's attempts, room or name change. Only the winner's two scores rise, by one. |
| Server.SubmitThrowSpec | src/server/services/withErrorHandling.ts:8-20 | When the check throws, the attempt stays recorded and nothing else changes. |
| Server.RewardScores | src/server/game/Room.ts:380-383 | A reward raises the winner's score and total score by one and touches nothing else. |
| Server.RoomScore | src/server/game/Room.ts:430 | The scoring against the room's word, or `""` when none is set. |
| Server.Recorded | src/server/game/Player.ts:206-208 | Only the submitter's attempts change, by appending the scoring. |
| Server.World.constructor | build/server/App.js:7 | No players, no rooms, empty directory; consistent. |
| Server.World.UpdateRoomState | build/server/App.js:39-52 | The directory becomes the corrected update for the room; consistency is restored. |
| Server.World.ClearRoomAttempts | src/server/game/Room.ts:289-291 | The loop clears exactly the listed players' attempts. |
| Server.World.ResetRoomScores | src/server/game/Room.ts:262-264 | The loop resets exactly the listed players' match scores. |
| Server.World.StartRound | src/server/game/Room.ts:287-312 | Attempts cleared, then the room as StartRoundRoom; consistent. |
| Server.World.NextRound | src/server/game/Room.ts:271-281 | The next round, or waiting after the last; consistent. |
| Server.World.StartGame | src/server/game/Room.ts:261-266 | Scores reset, then round 1 starts; consistent. |
| Server.World.SetWord | src/server/game/Room.ts:319-326 | The word is stored and the round is played. |
| Server.World.CheckPlayerAttempts | src/server/game/Room.ts:332-387 | The room settles on the decision and the winner is rewarded. A throw is reported and changes nothing. |
| Server.World.RemovePlayer | src/server/game/Room.ts:203-227 | The new state is Removed: spliced out, score 0, next round if they chose the word, directory updated. |
| Server.World.Leave | src/server/game/Room.ts:203-224 | The player is spliced out and in no room with score 0. If they were choosing the word, the next round follows. Consistent, with the room's directory slot free or its own. |
| Server.World.Splice | src/server/game/Room.ts:204-209 | The player leaves the room's list and is in no room with score 0; consistent. |
| Server.World.AddPlayer | src/server/game/Room.ts:97-102 | The new state is Added: appended, in the room, score 0, directory updated. |
| Server.World.KickPlayer | src/server/game/Room.ts:243-246 | Kicking is removal. |
| Server.World.NewPlayer | src/server/game/Player.ts:10-25 | A new player named "Guest" plus digits, in no room, with no scores or attempts. |
| Server.World.SetName | src/server/game/Player.ts:41-46 | Only the name changes; success. |
| Server.World.CreateRoom | src/server/game/Room.ts:46-49 | A new room object with the next reference; not yet in the directory. |
| Server.World.GetRoom | build/server/App.js:13-31 | The registered room for a given ID, else a new one under that ID. For no ID, the drawn available room, else a new one. The room returned is registered under its ID. |
| Server.World.Connect | build/server/App.js:75-87 | A full room refuses with error 1. Otherwise the player leaves their room and joins the new one, and its ID is returned. |
| Server.World.Disconnect | build/server/App.js:64-71 | The player leaves their room and is gone. |
| Server.World.SubmitAttempt | src/server/game/Player.ts:47-59 | Error 5 outside a room. Otherwise the state is Submitted and the reply is the scoring, or -1000 when the check throws. |
| Server.World.SetSettings | src/server/game/Room.ts:393-396 | Only the settings change. |
| Server.World.SetAccessibility | src/server/game/Room.ts:403-408 | Privacy and capacity are replaced and the directory is updated. |
| Server.World.StartRequest | src/server/game/Room.ts:145-160 | Error -1 and no change for a non-administrator; otherwise startGame. |
| Server.World.NextRoundRequest | src/server/game/Room.ts:161-168 | Error -1 and no change for a non-administrator; otherwise nextRound. |
| Server.World.KickRequest | src/server/game/Room.ts:169-177 | Error -1 for a non-administrator. A target in the room is removed; one outside it is ignored. |
| Server.World.SetAccessibilityRequest | src/server/game/Room.ts:178-185 | Error -1 for a non-administrator; otherwise the capacity is raised to at least 2. |
| Server.World.SetSettingsRequest | src/server/game/Room.ts:187-194 | Error -1 for a non-administrator; otherwise the settings are replaced. |
| Server.World.EnterWordRequest | src/server/game/Room.ts:128-143 | Error -2 and no change unless the caller is choosing; otherwise setWord. |
| Events.FirstMatch | build/services/EventManager.js:24 | -1 iff no entry matches; else the first matching position. |
| Events.OnSpec | build/services/EventManager.js:13-19 | A new listener is appended to its type's list, which is created when missing. A registered listener leaves the list unchanged. Other types are untouched. |
| Events.OnIdempotent | build/services/EventManager.js:16-17 | Registering the same listener twice is registering it once. |
| Events.OffSpec | build/services/EventManager.js:20-30 | True iff the type has a matching entry. When false, the registry is unchanged. Other types are never touched. |
| Events.OffRemovesFirst | build/services/EventManager.js:24-28 | When true, exactly the first matching entry is gone: one instance fewer in the multiset, one entry shorter, the others in their order. |
| Events.OffUndoesOn | build/services/EventManager.js:13-30 | Removing a freshly added listener restores the registry. |
| Events.Invoked | build/services/EventManager.js:36-40 | `emit` calls the type's listeners in registration order, and none for an unknown type. |
| Events.EventManager.constructor | build/services/EventManager.js:4-6 | An empty registry. |
| Events.EventManager.On | build/services/EventManager.js:13-19 | The registry becomes AfterOn. |
| Events.EventManager.Off | build/services/EventManager.js:20-30 | Registry and result are AfterOff. |
| Events.EventManager.Emit | build/services/EventManager.js:36-40 | The loop calls exactly the listeners Invoked lists, in order. The registry is not changed. |
| Shuffle.ShuffleArray | build/server/services/shuffleArray.js:8-15 | The array becomes the steps n-1 down to 1 applied to it. Its multiset and length are kept. |
| Shuffle.ShuffledPermutes | build/server/services/shuffleArray.js:11-13 | The shuffle keeps the length and the multiset of the elements. |
| Shuffle.StepsPermutes | build/server/services/shuffleArray.js:9-14 | Every prefix of the steps is a permutation. |
| Shuffle.ShortUnchanged | build/server/services/shuffleArray.js:9 | Arrays of length 0 or 1 are left untouched. |
| Shuffle.StepsSettle | build/server/services/shuffleArray.js:9-14 | After the step for index i, positions at and above i are never written again. |
| Shuffle.StepKeepsAbove | build/server/services/shuffleArray.js:10-13 | A step writes only i and some j <= i. |
| Shuffle.SwapAt | build/server/services/shuffleArray.js:11-13 | The swap exchanges positions i and j and leaves every other position alone. |
| Shuffle.SwapPermutes | build/server/services/shuffleArray.js:11-13 | The swap keeps the multiset of the elements. |
| Words.HasWord | src/client/services/lists/hasWord.ts:7-12 | Dotted words are rejected. Listed words and words whose dotted form is listed are accepted. Nothing else is. |
| Words.HasWordIff | src/client/services/lists/hasWord.ts:7-12 | Accepted iff undotted and equal to some list entry with its leading dot dropped. |
| ClientSelf.Self.GetAttempts | src/client/model/game/Self.ts:64-77 | One row per shown word, each of `length` verdicts. The letter is the guess's character or none. The kind is the server's verdict there or `unknown`. |
| ClientSelf.DisplayRows | src/client/model/game/Self.ts:66-68 | The sent guesses in order, then the typed guess only when non-empty. |
| ClientSelf.SendingKeepsDisplay | src/client/model/game/Self.ts:66-68 | Sending a non-empty typed guess does not change the rows shown. |
| ClientSelf.Self.constructor | src/client/model/game/Self.ts:10-11 | No verdicts, no guesses, an empty typed guess. |
| ClientSelf.Self.SetGuess | src/client/model/game/Self.ts:84-86 | Only the typed guess changes. |
| ClientSelf.Self.Guess | src/client/model/game/Self.ts:92-97 | The typed guess is sent, appended to the sent guesses, and cleared. The rows shown stay the same. |
| ClientSelf.Self.ReceiveAttempts | src/client/model/game/Self.ts:28-34 | New verdicts are stored. A shorter list clears the sent and typed guesses; otherwise they are kept. |
| Keyboard.Rank | src/client/UI/game/Keyboard.tsx:13-18 | Ranks 0..3, with 0 exactly `unknown` and 3 exactly `matches`. |
| Keyboard.RankStrict | src/client/UI/game/Keyboard.tsx:13-18 | unknown < absent < contains < matches, and the ranking is injective. |
| Keyboard.BestOfIsMaximum | src/client/UI/game/Keyboard.tsx:48-61 | A letter's status ranks at least as high as every verdict carrying it, and is one of them unless `unknown`. |
| Keyboard.NeverDowngraded | src/client/UI/game/Keyboard.tsx:52-55 | A verdict without the letter changes nothing. A status is never downgraded. |
| Keyboard.Statuses | src/client/UI/game/Keyboard.tsx:48-61 | The nested loops give every letter its best status. The map holds exactly the letters whose best is not `unknown`. |
| Keyboard.RaiseStep | src/client/UI/game/Keyboard.tsx:52-55 | One step of the fold keeps the map equal to the best status so far. |
| Keyboard.RowWidth | src/client/UI/game/Keyboard.tsx:64-69 | A row's width in half-units lies between 2 and 3 per key. |
| Keyboard.RowWidthConcat | src/client/UI/game/Keyboard.tsx:64-69 | Widths add over concatenated rows. |
| Keyboard.LetterRowWidth | src/client/UI/game/Keyboard.tsx:66 | A row of letters is 2 half-units per key. |
| Keyboard.MaxWidth | src/client/UI/game/Keyboard.tsx:70-73 | The widest row's width: at least every width, one of them, and 0 for no rows. |
| Keyboard.LayoutFillers | src/client/UI/game/Keyboard.tsx:63-76 | Each filler is the widest width minus the row's width. Fillers are at least 0, and some row gets 0. |
| Keyboard.QwertyFillers | src/client/UI/game/Keyboard.tsx:63-76 | The QWERTY layout's fillers are 0, 2 and 0 half-units. |
| OwnView.EnterRefusal | src/client/UI/game/OwnView.tsx:29-41 | Enter sends iff the guess has `wordLength` letters, the rows do not exceed `attempts`, and the word list has it. |
| OwnView.Backspaced | src/client/UI/game/OwnView.tsx:42-43 | Backspace drops the last character; an empty guess stays empty. |
| OwnView.ProcessKey | src/client/UI/game/OwnView.tsx:24-49 | Nothing changes outside play or for the chooser. Enter sends exactly when EnterRefusal allows. Backspace drops a letter, and a letter is appended only below `wordLength`. The guess never outgrows `wordLength`, and at most `attempts` guesses are sent. |
| OwnView.SentWithinLimit | src/client/UI/game/OwnView.tsx:34 | With non-empty words a guess is sent only while fewer than `attempts` have been sent. |
| OwnView.EmptyWordsExceedLimit | src/client/UI/game/OwnView.tsx:34 | With empty words an empty guess adds no row, so one guess more than `attempts` can be sent. |

## Left out

- Socket transport, broadcasts, and the `share`/`unshare` and `retrieve` handlers. They only send or serve copies of the state modelled here.
- The listeners `removePlayer` leaves on a departing player's socket (`start`, `nextRound`, `setSettings`). Such a player is no longer the administrator, so these handlers answer error -1. `World.StartRequest`, `World.NextRoundRequest` and `World.SetSettingsRequest` therefore accept any caller. Duplicate deliveries after rejoining are not modelled.
- `withErrorHandling`: only its -1000 answer to the exception that `checkPlayerAttempts` can raise is modelled. The other handlers cannot throw on the inputs modelled.
- A room's own `EventManager`. Every room is created by `getRoom`, which registers `updateRoomState` on it, so `emitAccesibilityChange` is modelled as `World.UpdateRoomState`. That listener is registered again on every `getRoom`, and the registry does not remove the copies. Calling the update several times has the effect of calling it once.
- `setRoom`'s mutual recursion with `addPlayer` and `removePlayer` is unfolded. `World.AddPlayer` requires the player to be in no room, or already in this one; its callers ensure this.
- Rooms are never discarded from the room table; an emptied room only leaves the directory.
- `World.SetAccessibility` does not remove players beyond a lowered capacity; neither does the source.
- `Math.random`, `uuid()` and `Math.floor(Math.random() * 1e3)` are parameters. `GetRoom` requires the random available-room choice to be a key of `available`, and the new room ID to be unused. `NewPlayer` requires the guest number to be below 1000. The word draw `pick` is any number, reduced modulo the list's length.
- `startRound` in `randomized` mode with an empty word list stores no word (`Server.StartRoundRoom` via `RoomLogic.WordAt`). Scoring then uses `""`, as `this.word ?? ""` does. With a non-empty list a word is always stored.
- Server.World.UpdateRoomState: runs the corrected `Directory.Update`, not `updateRoomState` as written. So `AddPlayer`, `RemovePlayer`, `Connect`, `Disconnect` and `SetAccessibility` keep a room with players registered in `all`. The program instead loses the entry when a lone player reconnects to their own room, and the next connect creates a second room with that ID. The model does not reproduce that duplicate room. `Directory.UpdateAsWritten` and `Directory.ReconnectLosesRoom` state the behaviour as written.
- Strings are sequences of Unicode scalar values. JavaScript's `split("")` and `.length` count UTF-16 code units, so a custom-list word with characters outside the Basic Multilingual Plane gets a different length and number of verdicts in the program than in the model (`Scorer`, `OwnView`).
- Client: the `Observer` machinery, React rendering, the shake animation, the browser keyboard listener and `localStorage` layout choice. The azerty layout is not modelled. `getWordLength` and the word-list services are not part of this model.
- `OwnView.ProcessKey` takes `wordLength` as a parameter. The source computes it from `wordList[0]`, which fails on an empty list.
- `Server.World.Disconnect` removes the player from the player map. In the source the player object just becomes unreachable.

## Findings

| source | as written | input that shows it | evidently intended | confidence | as-written member | corrected member |
|---|---|---|---|---|---|---|
| build/server/App.js:39-52 | `updateRoomState` deletes an emptied room from `all` and `available` but never writes `all` for a room in use | a player alone in public room "r" connects to "r": `removePlayer` empties it (both entries deleted), `addPlayer` lists it as available again but not in `all`; the next connect to "r" creates a second room "r" | a room with players is registered in `all` under its ID | not executed | Directory.UpdateAsWritten, Directory.ReconnectLosesRoom | Directory.Update, Directory.UpdateKeepsListed |
