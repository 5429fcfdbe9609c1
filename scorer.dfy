/** The letter scorer of a room (Room.rate): a two-pass, Wordle-style
    classification of a guess against the secret word. */
module Scorer {
  import opened GameTypes

  /** The guessed character at position `i`, or none past the end of the guess
      (JavaScript yields `undefined` there). */
  function At(guess: string, i: int): Option<char> {
    if 0 <= i < |guess| then Some(guess[i]) else None
  }

  /** Position `i` of the word is guessed exactly. */
  predicate MatchAt(word: string, guess: string, i: int)
    requires 0 <= i < |word|
  {
    At(guess, i) == Some(word[i])
  }

  /** The verdict the exact-match pass gives position `i`. */
  function FirstAt(word: string, guess: string, i: int): LetterStatus
    requires 0 <= i < |word|
  {
    LetterStatus(if MatchAt(word, guess, i) then Matches else Unknown, At(guess, i))
  }

  /** The exact-match pass restricted to positions `j` and above. */
  function FirstFrom(word: string, guess: string, j: nat): (r: seq<LetterStatus>)
    ensures j <= |word| ==> |r| == |word| - j
    decreases |word| - j
  {
    if j >= |word| then [] else [FirstAt(word, guess, j)] + FirstFrom(word, guess, j + 1)
  }

  /** The result of the exact-match pass: one verdict per letter of the word. */
  function FirstPass(word: string, guess: string): (r: seq<LetterStatus>)
    ensures |r| == |word|
  {
    FirstFrom(word, guess, 0)
  }

  /** The letters of `word[j..]` that are not matched exactly, in order: what is
      left of the working copy of the word once the exact matches are spliced out. */
  function Unmatched(word: string, guess: string, j: nat): seq<char>
    decreases |word| - j
  {
    if j >= |word| then []
    else (if MatchAt(word, guess, j) then [] else [word[j]]) + Unmatched(word, guess, j + 1)
  }

  /** `Array.prototype.indexOf` on the working copy; an absent letter is never found. */
  function IndexOf(s: seq<char>, c: Option<char>): (k: int)
    ensures -1 <= k < |s|
    ensures k == -1 <==> c.None? || c.value !in s
    ensures 0 <= k ==> s[k] == c.value && c.value !in s[..k]
  {
    if c.None? || s == [] then -1
    else if s[0] == c.value then 0
    else
      var k := IndexOf(s[1..], c);
      assert 0 <= k ==> s[1..][..k] == s[1..k + 1];
      if k == -1 then -1 else k + 1
  }

  /** `splice(k, 1)` on a sequence. */
  function RemoveAt(s: seq<char>, k: int): (r: seq<char>)
    requires 0 <= k < |s|
    ensures |r| == |s| - 1
    ensures multiset(r) == multiset(s) - multiset{s[k]}
  {
    assert s == s[..k] + [s[k]] + s[k + 1..];
    s[..k] + s[k + 1..]
  }

  /** The partial-match verdict of one position against the current pool. */
  function Classify(x: LetterStatus, pool: seq<char>): (r: LetterStatus)
    ensures r.letter == x.letter
    ensures r.kind == if x.kind == Matches then Matches
      else if x.letter.Some? && x.letter.value in pool then Contains
      else Absent
  {
    if x.kind == Matches then x
    else if IndexOf(pool, x.letter) == -1 then x.(kind := Absent)
    else x.(kind := Contains)
  }

  /** The pool after classifying one position: a `contains` consumes the first
      instance of its letter. */
  function NextPool(x: LetterStatus, pool: seq<char>): seq<char> {
    if x.kind == Matches then pool
    else
      var k := IndexOf(pool, x.letter);
      if k == -1 then pool else RemoveAt(pool, k)
  }

  /** The partial-match pass: left to right, every verdict that is not an exact match
      becomes `contains` when its letter is still in the pool (consuming one instance)
      and `absent` otherwise. */
  function SecondPass(xs: seq<LetterStatus>, pool: seq<char>): (r: seq<LetterStatus>)
    ensures |r| == |xs|
    decreases |xs|
  {
    if xs == [] then []
    else [Classify(xs[0], pool)] + SecondPass(xs[1..], NextPool(xs[0], pool))
  }

  /** Keeps only the `type` of every verdict. */
  function Strip(xs: seq<LetterStatus>): (r: seq<LetterStatus>)
    ensures |r| == |xs|
    ensures forall i :: 0 <= i < |xs| ==> r[i].kind == xs[i].kind && r[i].letter == None
  {
    seq(|xs|, i requires 0 <= i < |xs| => LetterStatus(xs[i].kind, None))
  }

  /** The scoring `rate` returns for `guess` against `word`. */
  function Score(word: string, guess: string, seeOpponents: bool): (r: seq<LetterStatus>)
    ensures |r| == |word|
  {
    var mapped := SecondPass(FirstPass(word, guess), Unmatched(word, guess, 0));
    if seeOpponents then mapped else Strip(mapped)
  }

  function Reversed(s: seq<LetterStatus>): (r: seq<LetterStatus>)
    ensures |r| == |s|
  {
    if s == [] then [] else Reversed(s[1..]) + [s[0]]
  }

  lemma {:induction false} ReversedAppend(a: seq<LetterStatus>, b: seq<LetterStatus>)
    ensures Reversed(a + b) == Reversed(b) + Reversed(a)
    decreases |a|
  {
    if a == [] {
      assert a + b == b;
    } else {
      assert (a + b)[1..] == a[1..] + b;
      assert (a + b)[0] == a[0];
      ReversedAppend(a[1..], b);
    }
  }

  lemma {:induction false} ReversedTwice(s: seq<LetterStatus>)
    ensures Reversed(Reversed(s)) == s
    decreases |s|
  {
    if s != [] {
      ReversedAppend(Reversed(s[1..]), [s[0]]);
      assert Reversed([s[0]]) == [s[0]];
      ReversedTwice(s[1..]);
      assert [s[0]] + s[1..] == s;
    }
  }

  /** One step of the reverse exact-match scan at position `i`: the working copy
      still holds `word[i]` there, and splicing it out on a match leaves the letters
      of `word[i..]` that are not matched. */
  lemma FirstScanStep(word: string, guess: string, i: int, wordChars: seq<char>)
    requires 0 <= i < |word|
    requires wordChars == word[..i + 1] + Unmatched(word, guess, i + 1)
    ensures wordChars[i] == word[i]
    ensures (if MatchAt(word, guess, i) then wordChars[..i] + wordChars[i + 1..] else wordChars)
      == word[..i] + Unmatched(word, guess, i)
  {
    var u := Unmatched(word, guess, i + 1);
    assert word[..i + 1] == word[..i] + [word[i]];
    assert wordChars == word[..i] + ([word[i]] + u);
    assert wordChars[..i] == word[..i];
    assert wordChars[i + 1..] == u;
    if MatchAt(word, guess, i) {
      assert Unmatched(word, guess, i) == u;
    } else {
      assert Unmatched(word, guess, i) == [word[i]] + u;
    }
  }

  /** The reversed exact-match pass grows by one verdict per step of the scan. */
  lemma FirstScanReversed(word: string, guess: string, i: int)
    requires 0 <= i < |word|
    ensures Reversed(FirstFrom(word, guess, i)) == Reversed(FirstFrom(word, guess, i + 1)) + [FirstAt(word, guess, i)]
  {
    var x := FirstAt(word, guess, i);
    assert FirstFrom(word, guess, i) == [x] + FirstFrom(word, guess, i + 1);
    ReversedAppend([x], FirstFrom(word, guess, i + 1));
    assert [x][1..] == [];
    assert Reversed([x]) == [x];
  }

  /** The exact-match pass of Room.rate: scans the word from its last index to its
      first, splicing every exactly matched letter out of a working copy of the word,
      and returns the verdicts (reversed back into word order) with what is left of
      the copy. */
  method ExactPass(word: string, attempt: string) returns (matched: seq<LetterStatus>, wordChars: seq<char>)
    ensures matched == FirstPass(word, attempt)
    ensures wordChars == Unmatched(word, attempt, 0)
  {
    wordChars := word;
    var matchesReversed: seq<LetterStatus> := [];
    var i := |word| - 1;
    while i >= 0
      invariant -1 <= i < |word|
      invariant wordChars == word[..i + 1] + Unmatched(word, attempt, i + 1)
      invariant matchesReversed == Reversed(FirstFrom(word, attempt, i + 1))
    {
      FirstScanStep(word, attempt, i, wordChars);
      FirstScanReversed(word, attempt, i);
      var ch := At(attempt, i);
      var matches := ch == Some(wordChars[i]);
      if matches {
        wordChars := wordChars[..i] + wordChars[i + 1..];
      }
      matchesReversed := matchesReversed + [LetterStatus(if matches then Matches else Unknown, ch)];
      i := i - 1;
    }
    assert word[..0] == [];
    ReversedTwice(FirstFrom(word, attempt, 0));
    matched := Reversed(matchesReversed);
  }

  lemma PartialStep(matched: seq<LetterStatus>, pool: seq<char>, k: int, mapped: seq<LetterStatus>, wordChars: seq<char>)
    requires 0 <= k < |matched|
    requires mapped + SecondPass(matched[k..], wordChars) == SecondPass(matched, pool)
    ensures (mapped + [Classify(matched[k], wordChars)]) + SecondPass(matched[k + 1..], NextPool(matched[k], wordChars))
      == SecondPass(matched, pool)
  {
    assert matched[k..][1..] == matched[k + 1..];
    SecondPassStep(matched[k..], wordChars);
  }

  /** The partial-match pass of Room.rate: left to right, every position that is not
      an exact match becomes `contains` if its letter is found in the working copy
      (which then loses that instance) and `absent` otherwise. */
  method PartialPass(matched: seq<LetterStatus>, pool: seq<char>) returns (mapped: seq<LetterStatus>)
    ensures mapped == SecondPass(matched, pool)
  {
    var wordChars := pool;
    mapped := [];
    var k := 0;
    while k < |matched|
      invariant 0 <= k <= |matched|
      invariant mapped + SecondPass(matched[k..], wordChars) == SecondPass(matched, pool)
    {
      var data := matched[k];
      PartialStep(matched, pool, k, mapped, wordChars);
      ghost var next := Classify(data, wordChars);
      ghost var rest := NextPool(data, wordChars);
      if data.kind == Matches {
        mapped := mapped + [data];
      } else {
        var index := IndexOf(wordChars, data.letter);
        if index == -1 {
          mapped := mapped + [data.(kind := Absent)];
        } else {
          wordChars := RemoveAt(wordChars, index);
          mapped := mapped + [data.(kind := Contains)];
        }
      }
      assert wordChars == rest;
      k := k + 1;
    }
    assert matched[k..] == [];
  }

  /** Room.rate: the exact-match pass, then the partial-match pass, then the letters
      are dropped unless the room lets players see their opponents' letters. */
  method Rate(word: string, attempt: string, seeOpponents: bool) returns (scoring: Attempt)
    ensures scoring == Score(word, attempt, seeOpponents)
    ensures |scoring| == |word|
    ensures forall i :: 0 <= i < |word| ==>
      (scoring[i].kind == Matches <==> i < |attempt| && attempt[i] == word[i])
    ensures forall i :: 0 <= i < |scoring| ==> scoring[i].kind != Unknown
    ensures forall i :: 0 <= i < |scoring| ==>
      scoring[i].letter == if seeOpponents then At(attempt, i) else None
  {
    var matched, wordChars := ExactPass(word, attempt);
    var mapped := PartialPass(matched, wordChars);
    if seeOpponents {
      scoring := mapped;
    } else {
      scoring := Strip(mapped);
    }
    forall j | 0 <= j < |word|
      ensures scoring[j].kind == Matches <==> j < |attempt| && attempt[j] == word[j]
      ensures scoring[j].kind != Unknown
      ensures scoring[j].letter == if seeOpponents then At(attempt, j) else None
    {
      ScoreAt(word, attempt, seeOpponents, j);
    }
  }

  // ---------------------------------------------------------------------------
  // Properties of the scoring

  lemma {:induction false} FirstFromAt(word: string, guess: string, j: nat, i: int)
    requires j <= i < |word|
    ensures FirstFrom(word, guess, j)[i - j] == FirstAt(word, guess, i)
    decreases |word| - j
  {
    if i > j {
      FirstFromAt(word, guess, j + 1, i);
    }
  }

  /** Position `i` of the exact-match pass is `matches` exactly where the guess has
      the word's letter, and carries the guessed letter. */
  lemma FirstPassAt(word: string, guess: string, i: int)
    requires 0 <= i < |word|
    ensures FirstPass(word, guess)[i] == FirstAt(word, guess, i)
  {
    FirstFromAt(word, guess, 0, i);
  }

  lemma SecondPassStep(xs: seq<LetterStatus>, pool: seq<char>)
    requires xs != []
    ensures SecondPass(xs, pool)[0] == Classify(xs[0], pool)
    ensures SecondPass(xs, pool)[1..] == SecondPass(xs[1..], NextPool(xs[0], pool))
  {
  }

  /** The partial-match pass keeps the letter and the exact matches of every position,
      and leaves no position `unknown`. */
  lemma {:induction false} SecondPassShape(xs: seq<LetterStatus>, pool: seq<char>, i: int)
    requires 0 <= i < |xs|
    ensures SecondPass(xs, pool)[i].letter == xs[i].letter
    ensures SecondPass(xs, pool)[i].kind == Matches <==> xs[i].kind == Matches
    ensures SecondPass(xs, pool)[i].kind != Unknown
    decreases |xs|
  {
    SecondPassStep(xs, pool);
    if i > 0 {
      SecondPassShape(xs[1..], NextPool(xs[0], pool), i - 1);
    }
  }

  /** What the scorer returns at position `i` of the WORD (the result has one verdict
      per letter of the word, not of the guess): `matches` exactly where the guess has
      the word's letter, never `unknown`, the guessed letter only when `seeOpponents`
      is set, and the same verdict type whether or not letters are shown. */
  lemma ScoreAt(word: string, guess: string, seeOpponents: bool, i: int)
    requires 0 <= i < |word|
    ensures Score(word, guess, seeOpponents)[i].kind == Matches <==> i < |guess| && guess[i] == word[i]
    ensures Score(word, guess, seeOpponents)[i].kind != Unknown
    ensures Score(word, guess, seeOpponents)[i].letter == if seeOpponents then At(guess, i) else None
    ensures Score(word, guess, seeOpponents)[i].kind == Score(word, guess, true)[i].kind
  {
    FirstPassAt(word, guess, i);
    SecondPassShape(FirstPass(word, guess), Unmatched(word, guess, 0), i);
  }

  // ---------------------------------------------------------------------------
  // Counting: duplicate letters are never over-reported

  function Min(a: int, b: int): int {
    if a <= b then a else b
  }

  /** The number of verdicts of kind `kind` that carry the letter `c`. */
  function CountWith(xs: seq<LetterStatus>, kind: CharStatus, c: char): nat {
    if xs == [] then 0
    else (if xs[0].kind == kind && xs[0].letter == Some(c) then 1 else 0) + CountWith(xs[1..], kind, c)
  }

  /** The number of verdicts that carry the letter `c` and are not exact matches. */
  function Candidates(xs: seq<LetterStatus>, c: char): nat {
    if xs == [] then 0
    else (if xs[0].kind != Matches && xs[0].letter == Some(c) then 1 else 0) + Candidates(xs[1..], c)
  }

  /** Taking one step of the pass removes at most the head's letter from the pool. */
  lemma NextPoolCount(x: LetterStatus, pool: seq<char>, c: char)
    ensures multiset(NextPool(x, pool))[c] ==
      if x.kind != Matches && x.letter == Some(c) && multiset(pool)[c] > 0
      then multiset(pool)[c] - 1 else multiset(pool)[c]
  {
  }

  /** The partial-match pass reports letter `c` as `contains` exactly as often as both
      the pool and the non-matching guesses of `c` allow, and keeps the exact matches. */
  lemma {:induction false} SecondPassCounts(xs: seq<LetterStatus>, pool: seq<char>, c: char)
    ensures CountWith(SecondPass(xs, pool), Contains, c) == Min(multiset(pool)[c], Candidates(xs, c))
    ensures CountWith(SecondPass(xs, pool), Matches, c) == CountWith(xs, Matches, c)
    decreases |xs|
  {
    if xs != [] {
      SecondPassStep(xs, pool);
      NextPoolCount(xs[0], pool, c);
      SecondPassCounts(xs[1..], NextPool(xs[0], pool), c);
    }
  }

  lemma CandidatesPrefix(xs: seq<LetterStatus>, i: int, c: char)
    requires 0 < i <= |xs|
    ensures Candidates(xs[..i], c)
      == (if xs[0].kind != Matches && xs[0].letter == Some(c) then 1 else 0) + Candidates(xs[1..][..i - 1], c)
  {
    assert xs[..i][0] == xs[0];
    assert xs[..i][1..] == xs[1..][..i - 1];
  }

  /** A non-matching position carrying letter `c` is `contains` iff fewer than
      `pool[c]` earlier positions are non-matching guesses of `c`: that is, iff an
      unconsumed instance of `c` remains when the left-to-right pass reaches it. */
  lemma {:induction false} SecondPassAt(xs: seq<LetterStatus>, pool: seq<char>, i: int, c: char)
    requires 0 <= i < |xs| && xs[i].kind != Matches && xs[i].letter == Some(c)
    ensures SecondPass(xs, pool)[i].kind == Contains <==> Candidates(xs[..i], c) < multiset(pool)[c]
    decreases |xs|
  {
    if i == 0 {
      SecondPassStep(xs, pool);
      assert xs[..0] == [];
    } else {
      var pool' := NextPool(xs[0], pool);
      SecondPassTail(xs, pool, i);
      SecondPassAt(xs[1..], pool', i - 1, c);
      NextPoolCount(xs[0], pool, c);
      CandidatesPrefix(xs, i, c);
    }
  }

  lemma SecondPassTail(xs: seq<LetterStatus>, pool: seq<char>, i: int)
    requires 0 < i < |xs|
    ensures SecondPass(xs, pool)[i] == SecondPass(xs[1..], NextPool(xs[0], pool))[i - 1]
  {
    SecondPassStep(xs, pool);
  }

  /** What is left of the word after the exact-match pass: every letter of `word[j..]`
      goes either to the pool or to an exact match. */
  lemma {:induction false} UnmatchedCounts(word: string, guess: string, j: nat, c: char)
    requires j <= |word|
    ensures multiset(Unmatched(word, guess, j))[c] + CountWith(FirstFrom(word, guess, j), Matches, c)
      == multiset(word[j..])[c]
    decreases |word| - j
  {
    if j < |word| {
      UnmatchedCounts(word, guess, j + 1, c);
      var rest := Unmatched(word, guess, j + 1);
      var first := FirstFrom(word, guess, j);
      assert first[0] == FirstAt(word, guess, j) && first[1..] == FirstFrom(word, guess, j + 1);
      assert CountWith(first, Matches, c) == (if MatchAt(word, guess, j) && word[j] == c then 1 else 0)
        + CountWith(FirstFrom(word, guess, j + 1), Matches, c);
      SuffixCount(word, j, c);
      if MatchAt(word, guess, j) {
        assert Unmatched(word, guess, j) == rest;
      } else {
        assert Unmatched(word, guess, j) == [word[j]] + rest;
        assert multiset(Unmatched(word, guess, j))[c] == (if word[j] == c then 1 else 0) + multiset(rest)[c];
      }
    }
  }

  /** Counting a letter in a suffix: the head plus the rest. */
  lemma SuffixCount(s: string, j: nat, c: char)
    requires j < |s|
    ensures multiset(s[j..])[c] == (if s[j] == c then 1 else 0) + multiset(s[j + 1..])[c]
  {
    assert s[j..] == [s[j]] + s[j + 1..];
  }

  /** The pool the partial-match pass starts from holds, for every letter, the word's
      occurrences minus the exact matches. */
  lemma PoolCount(word: string, guess: string, c: char)
    ensures multiset(Unmatched(word, guess, 0))[c]
      == multiset(word)[c] - CountWith(FirstPass(word, guess), Matches, c)
  {
    UnmatchedCounts(word, guess, 0, c);
    assert word[0..] == word;
  }

  /** For every letter `c`: the exact matches of `c` plus the `contains` verdicts of `c`
      never exceed the occurrences of `c` in the word; more precisely the `contains`
      verdicts are as many as the unmatched word letters `c` and the non-matching
      guesses of `c` both allow. */
  lemma LetterBound(word: string, guess: string, c: char)
    ensures CountWith(Score(word, guess, true), Contains, c)
      == Min(multiset(word)[c] - CountWith(Score(word, guess, true), Matches, c),
             Candidates(FirstPass(word, guess), c))
    ensures CountWith(Score(word, guess, true), Matches, c) + CountWith(Score(word, guess, true), Contains, c)
      <= multiset(word)[c]
  {
    var xs := FirstPass(word, guess);
    var pool := Unmatched(word, guess, 0);
    assert Score(word, guess, true) == SecondPass(xs, pool);
    PoolCount(word, guess, c);
    SecondPassCounts(xs, pool, c);
  }

  /** Position `i` of the word that the guess does not match, carrying guessed letter
      `c`, is `contains` iff fewer earlier non-matching guesses of `c` exist than
      instances of `c` left in the word after the exact matches. */
  lemma ContainsIff(word: string, guess: string, i: int, c: char)
    requires 0 <= i < |word| && i < |guess| && guess[i] == c && c != word[i]
    ensures Score(word, guess, true)[i].kind == Contains <==>
      Candidates(FirstPass(word, guess)[..i], c)
        < multiset(word)[c] - CountWith(FirstPass(word, guess), Matches, c)
  {
    var xs := FirstPass(word, guess);
    FirstPassAt(word, guess, i);
    PoolCount(word, guess, c);
    SecondPassAt(xs, Unmatched(word, guess, 0), i, c);
  }
}
