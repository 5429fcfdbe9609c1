/** Word-list lookup for a word a chooser enters (src/client/services/lists/hasWord.ts).
    For an entry starting with a dot, the form without the dot is accepted; the dotted
    spelling itself is never accepted. The random word of a round is drawn from the
    list as it is, dotted entries included (see RoomLogic.WordAt). */
module Words {

  predicate Dotted(w: string) {
    |w| > 0 && w[0] == '.'
  }

  /** `hasWord(list, word)`. */
  function HasWord(list: seq<string>, word: string): (r: bool)
    ensures Dotted(word) ==> !r
    ensures !Dotted(word) && word in list ==> r
    ensures !Dotted(word) && "." + word in list ==> r
    ensures r ==> word in list || "." + word in list
  {
    if Dotted(word) then false
    else if word in list then true
    else if "." + word in list then true
    else false
  }

  /** A list entry with its leading dot, if any, dropped. */
  function Undotted(entry: string): (w: string)
    ensures Dotted(entry) ==> "." + w == entry
    ensures !Dotted(entry) ==> w == entry
  {
    if Dotted(entry) then entry[1..] else entry
  }

  /** The accepted words are exactly the undotted forms of the list's entries, leaving
      out those that still start with a dot. */
  lemma HasWordIff(list: seq<string>, word: string)
    ensures HasWord(list, word) <==>
      !Dotted(word) && exists i :: 0 <= i < |list| && Undotted(list[i]) == word
  {
    if HasWord(list, word) {
      if word in list {
        var i :| 0 <= i < |list| && list[i] == word;
        assert Undotted(list[i]) == word;
      } else {
        var i :| 0 <= i < |list| && list[i] == "." + word;
        assert list[i][1..] == word;
        assert Undotted(list[i]) == word;
      }
    }
    if !Dotted(word) && exists i :: 0 <= i < |list| && Undotted(list[i]) == word {
      var i :| 0 <= i < |list| && Undotted(list[i]) == word;
      if Dotted(list[i]) {
        assert "." + word in list;
      } else {
        assert word in list;
      }
    }
  }
}
