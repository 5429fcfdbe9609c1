/** Guess entry on the client (`processKey` in src/client/UI/game/OwnView.tsx): keys
    edit the player's typed guess, and enter sends it once it is complete, allowed,
    and within the attempt limit. */
module OwnView {
  import opened GameTypes
  import opened ClientSelf
  import opened Keyboard

  /** Why enter refuses the typed guess, or `None` when it is sent. */
  function EnterRefusal(guess: string, rows: nat, wordLength: nat, attempts: int, wordList: seq<string>): (r: Option<string>)
    ensures r.None? <==> |guess| == wordLength && rows <= attempts && guess in wordList
  {
    if |guess| != wordLength then Some("length")
    else if rows > attempts then Some("attempts")
    else if guess !in wordList then Some("word")
    else None
  }

  /** The typed guess after backspace: `guess.substring(0, guess.length - 1)`. */
  function Backspaced(guess: string): (r: string)
    ensures guess == [] ==> r == []
    ensures guess != [] ==> r + [guess[|guess| - 1]] == guess
  {
    if guess == [] then [] else guess[..|guess| - 1]
  }

  /** `processKey(key)`. The key is ignored outside the playing phase and for the
      chooser. Enter sends the typed guess when it has `wordLength` letters, the rows
      shown do not exceed `attempts`, and the word list has it; backspace removes the
      last letter; a letter is appended while the guess is shorter than `wordLength`. */
  method ProcessKey(me: Self, key: Key, status: GameStatus, isChooser: bool, wordLength: nat,
                    attempts: int, wordList: seq<string>) returns (sent: Option<string>)
    modifies me
    ensures me.attempts == old(me.attempts)
    ensures status != Playing || isChooser ==>
      sent.None? && me.guesses == old(me.guesses) && me.newGuess == old(me.newGuess)
    ensures sent.Some? <==>
      status == Playing && !isChooser && key == Enter &&
      EnterRefusal(old(me.newGuess), |old(me.Rows())|, wordLength, attempts, wordList).None?
    ensures sent.Some? ==> sent.value == old(me.newGuess) && me.guesses == old(me.guesses) + [sent.value] && me.newGuess == ""
    ensures sent.None? ==> me.guesses == old(me.guesses)
    ensures sent.Some? ==> |sent.value| == wordLength && sent.value in wordList
    ensures status == Playing && !isChooser && key == Backspace ==> me.newGuess == Backspaced(old(me.newGuess))
    ensures status == Playing && !isChooser && key.Letter? ==>
      me.newGuess == if |old(me.newGuess)| < wordLength then old(me.newGuess) + [key.c] else old(me.newGuess)
    ensures sent.None? && key == Enter ==> me.newGuess == old(me.newGuess)
    ensures |old(me.newGuess)| <= wordLength ==> |me.newGuess| <= wordLength
    ensures 0 < wordLength && |old(me.guesses)| <= attempts ==> |me.guesses| <= attempts
  {
    if status != Playing || isChooser {
      return None;
    }
    var guess := me.newGuess;
    match key {
      case Enter =>
        var rows := |me.Rows()|;
        if EnterRefusal(guess, rows, wordLength, attempts, wordList).Some? {
          return None;
        }
        var word := me.Guess();
        return Some(word);
      case Backspace =>
        me.SetGuess(Backspaced(guess));
        return None;
      case Letter(c) =>
        if |guess| < wordLength {
          me.SetGuess(guess + [c]);
        }
        return None;
    }
  }

  /** A guess is sent only while fewer than `attempts` guesses have been sent, so as
      long as words are not empty no more than `attempts` guesses are ever sent. */
  lemma SentWithinLimit(guesses: seq<string>, newGuess: string, wordLength: nat, attempts: int, wordList: seq<string>)
    requires 0 < wordLength
    requires EnterRefusal(newGuess, |DisplayRows(guesses, newGuess)|, wordLength, attempts, wordList).None?
    ensures |guesses| + 1 <= attempts
  {
  }

  /** With empty words the limit is one guess looser: an empty typed guess adds no row,
      so a player who has sent `attempts` guesses may send one more. */
  lemma EmptyWordsExceedLimit()
    ensures EnterRefusal("", |DisplayRows(["", ""], "")|, 0, 2, [""]).None?
  {
  }
}
