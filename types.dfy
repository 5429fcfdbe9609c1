/** Value types shared by the server and the client: letter verdicts, attempts,
    the game state and the game settings of a room. */
module GameTypes {

  datatype Option<T> = None | Some(value: T)

  /** The classification of one guessed letter. */
  datatype CharStatus = Matches | Contains | Absent | Unknown

  /** The verdict for one position of a guess; `letter` is absent when the
      scorer strips it or the guess is shorter than the word. */
  datatype LetterStatus = LetterStatus(kind: CharStatus, letter: Option<char>)

  /** One scored guess. */
  type Attempt = seq<LetterStatus>

  type PlayerId = string

  datatype GameStatus = Waiting | ChoosingWord | Playing | ShowingWinner

  /** The replicated game state of a room. */
  datatype GameState = GameState(status: GameStatus, round: int, chooser: Option<PlayerId>, winner: Option<PlayerId>)

  /** "speed": the first to guess wins; "attempts": the fewest attempts win. */
  datatype ScoringMode = Speed | FewestAttempts

  datatype WordMode = Randomized | Entered

  datatype GameSettings = GameSettings(
    attempts: int,
    rounds: int,
    scoring: ScoringMode,
    wordMode: WordMode,
    wordList: seq<string>,
    wordListName: string,
    seeOpponents: bool)

  /** The settings a new room starts with. */
  const DefaultSettings := GameSettings(6, 3, Speed, Randomized, ["doggo"], "fake", false)

  /** The state a new room starts with. */
  const InitialState := GameState(Waiting, 0, None, None)

  /** True when every verdict of the attempt is `matches` (vacuously for an empty attempt). */
  predicate AllMatch(a: Attempt) {
    forall i :: 0 <= i < |a| ==> a[i].kind == Matches
  }
}
