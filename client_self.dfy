/** The client's own player (src/client/model/game/Self.ts): the verdicts the server
    sent for its attempts, the guesses it has sent, and the guess being typed. */
module ClientSelf {
  import opened GameTypes

  class Self {
    /** The server's verdicts, one attempt per sent guess. */
    var attempts: seq<Attempt>
    var guesses: seq<string>
    var newGuess: string

    constructor()
      ensures attempts == [] && guesses == [] && newGuess == ""
    {
      attempts := [];
      guesses := [];
      newGuess := "";
    }

    /** The words shown as rows: the sent guesses, then the guess being typed when it
        is not empty. */
    function Rows(): seq<string>
      reads this
    {
      DisplayRows(guesses, newGuess)
    }

    /** `getAttempts(length)`: one row of `length` verdicts per shown word; the letter
        is the word's character there, if any, and the kind is the server's verdict
        there, if any, and `unknown` otherwise. */
    function GetAttempts(length: nat): (r: seq<Attempt>)
      reads this
      ensures |r| == |Rows()|
      ensures forall i :: 0 <= i < |r| ==> |r[i]| == length
      ensures forall i, j :: 0 <= i < |r| && 0 <= j < length ==>
        r[i][j].letter == (if j < |Rows()[i]| then Some(Rows()[i][j]) else None)
      ensures forall i, j :: 0 <= i < |r| && 0 <= j < length ==>
        r[i][j].kind == (if i < |attempts| && j < |attempts[i]| then attempts[i][j].kind else Unknown)
    {
      var rows := Rows();
      seq(|rows|, i requires 0 <= i < |rows| reads this =>
        seq(length, j requires 0 <= j < length reads this =>
          LetterStatus(
            if i < |attempts| && j < |attempts[i]| then attempts[i][j].kind else Unknown,
            if j < |rows[i]| then Some(rows[i][j]) else None)))
    }

    /** `setGuess(guess)`: only the guess being typed changes. */
    method SetGuess(guess: string)
      modifies this
      ensures newGuess == guess
      ensures guesses == old(guesses) && attempts == old(attempts)
    {
      newGuess := guess;
    }

    /** `guess()`: the typed guess is sent, recorded as sent, and cleared. */
    method Guess() returns (sent: string)
      modifies this
      ensures sent == old(newGuess)
      ensures guesses == old(guesses) + [sent] && newGuess == ""
      ensures attempts == old(attempts)
      ensures old(|newGuess|) > 0 ==> Rows() == old(Rows())
    {
      sent := newGuess;
      guesses := guesses + [sent];
      newGuess := "";
    }

    /** A new list of verdicts from the server; a shorter list than before means a new
        round, and the sent and typed guesses are cleared. */
    method ReceiveAttempts(next: seq<Attempt>)
      modifies this
      ensures attempts == next
      ensures |next| < |old(attempts)| ==> guesses == [] && newGuess == ""
      ensures |next| >= |old(attempts)| ==> guesses == old(guesses) && newGuess == old(newGuess)
    {
      var reset := |next| < |attempts|;
      attempts := next;
      if reset {
        guesses := [];
        newGuess := "";
      }
    }
  }

  /** Sending a typed guess does not change what is shown: the rows, and the
      verdicts for them, are the same before and after. */
  lemma SendingKeepsDisplay(guesses: seq<string>, newGuess: string)
    requires |newGuess| > 0
    ensures DisplayRows(guesses, newGuess) == DisplayRows(guesses + [newGuess], "")
  {
  }

  /** The rows shown for a given list of sent guesses and typed guess. */
  function DisplayRows(guesses: seq<string>, newGuess: string): (r: seq<string>)
    ensures |r| == |guesses| + (if |newGuess| > 0 then 1 else 0)
    ensures forall i :: 0 <= i < |guesses| ==> r[i] == guesses[i]
    ensures |newGuess| > 0 ==> r[|guesses|] == newGuess
  {
    if |newGuess| > 0 then guesses + [newGuess] else guesses
  }
}
