/** The on-screen keyboard (src/client/UI/game/Keyboard.tsx): the colour of each key,
    which is the best verdict its letter has received, and the fillers that centre
    the shorter rows of a layout. */
module Keyboard {
  import opened GameTypes

  /** A key of a layout. */
  datatype Key = Letter(c: char) | Enter | Backspace

  type Layout = seq<seq<Key>>

  /** `statusRanking`. */
  function Rank(s: CharStatus): (r: nat)
    ensures r <= 3
    ensures r == 0 <==> s == Unknown
    ensures r == 3 <==> s == Matches
  {
    match s
    case Unknown => 0
    case Absent => 1
    case Contains => 2
    case Matches => 3
  }

  /** The ranking is strict: unknown < absent < contains < matches, and no two kinds
      share a rank. */
  lemma RankStrict(a: CharStatus, b: CharStatus)
    ensures Rank(Unknown) < Rank(Absent) < Rank(Contains) < Rank(Matches)
    ensures Rank(a) == Rank(b) ==> a == b
  {
  }

  /** All verdicts of all attempts, in the order the keyboard visits them. */
  function Verdicts(attempts: seq<Attempt>): (r: seq<LetterStatus>)
    ensures attempts == [] ==> r == []
  {
    if attempts == [] then [] else Verdicts(attempts[..|attempts| - 1]) + attempts[|attempts| - 1]
  }

  /** The status of letter `c` after visiting `vs` in order: a verdict for `c` replaces
      the status only when it ranks strictly higher. */
  function BestOf(vs: seq<LetterStatus>, c: char): CharStatus {
    if vs == [] then Unknown
    else
      var best := BestOf(vs[..|vs| - 1], c);
      var v := vs[|vs| - 1];
      if v.letter == Some(c) && Rank(best) < Rank(v.kind) then v.kind else best
  }

  /** BestOf is the highest-ranked kind among the verdicts carrying `c`, or `unknown`
      when there are none: it ranks at least as high as each of them, and it is one of
      them unless it is `unknown`. */
  lemma {:induction false} BestOfIsMaximum(vs: seq<LetterStatus>, c: char)
    ensures forall i :: 0 <= i < |vs| && vs[i].letter == Some(c) ==> Rank(vs[i].kind) <= Rank(BestOf(vs, c))
    ensures BestOf(vs, c) != Unknown ==>
      exists i :: 0 <= i < |vs| && vs[i].letter == Some(c) && vs[i].kind == BestOf(vs, c)
  {
    if vs != [] {
      var init := vs[..|vs| - 1];
      BestOfIsMaximum(init, c);
      assert forall i :: 0 <= i < |init| ==> init[i] == vs[i];
      var best := BestOf(init, c);
      if best != Unknown && BestOf(vs, c) == best {
        var i :| 0 <= i < |init| && init[i].letter == Some(c) && init[i].kind == best;
        assert vs[i].letter == Some(c) && vs[i].kind == best;
      }
      if BestOf(vs, c) != best {
        assert vs[|vs| - 1].letter == Some(c) && vs[|vs| - 1].kind == BestOf(vs, c);
      }
    }
  }

  /** Verdicts without a letter, or for another letter, never change the status of `c`,
      and a status is never downgraded by a later verdict. */
  lemma NeverDowngraded(vs: seq<LetterStatus>, v: LetterStatus, c: char)
    ensures v.letter != Some(c) ==> BestOf(vs + [v], c) == BestOf(vs, c)
    ensures Rank(BestOf(vs, c)) <= Rank(BestOf(vs + [v], c))
  {
    assert (vs + [v])[..|vs|] == vs;
  }

  /** The best status of letter `c` over all verdicts of all attempts. */
  function BestStatus(attempts: seq<Attempt>, c: char): CharStatus {
    BestOf(Verdicts(attempts), c)
  }

  /** `statuses.get(key) ?? "unknown"`. */
  function KeyStatus(statuses: map<char, CharStatus>, key: Key): CharStatus {
    match key
    case Letter(c) => if c in statuses then statuses[c] else Unknown
    case _ => Unknown
  }

  /** `statuses` records, for every letter, its best status over `vs`, and holds no
      `unknown` entry. */
  ghost predicate Tracks(statuses: map<char, CharStatus>, vs: seq<LetterStatus>) {
    && (forall c :: c in statuses ==> statuses[c] != Unknown)
    && (forall c :: KeyStatus(statuses, Letter(c)) == BestOf(vs, c))
  }

  /** One visit of the fold keeps `Tracks`. */
  lemma RaiseStep(statuses: map<char, CharStatus>, vs: seq<LetterStatus>, v: LetterStatus,
                  statuses': map<char, CharStatus>)
    requires Tracks(statuses, vs)
    requires v.letter.None? ==> statuses' == statuses
    requires v.letter.Some? ==>
      var best := KeyStatus(statuses, Letter(v.letter.value));
      statuses' == if Rank(best) < Rank(v.kind) then statuses[v.letter.value := v.kind] else statuses
    ensures Tracks(statuses', vs + [v])
  {
    assert (vs + [v])[..|vs|] == vs;
    forall c
      ensures KeyStatus(statuses', Letter(c)) == BestOf(vs + [v], c)
    {
      assert BestOf(vs, c) == KeyStatus(statuses, Letter(c));
    }
  }

  /** The `statuses` fold: for each verdict carrying a letter, in order, the letter's
      entry is raised to the verdict's kind when that ranks strictly higher. */
  method Statuses(attempts: seq<Attempt>) returns (statuses: map<char, CharStatus>)
    ensures forall c :: KeyStatus(statuses, Letter(c)) == BestStatus(attempts, c)
    ensures forall c :: c in statuses <==> BestStatus(attempts, c) != Unknown
  {
    statuses := map[];
    var i := 0;
    while i < |attempts|
      invariant 0 <= i <= |attempts|
      invariant Tracks(statuses, Verdicts(attempts[..i]))
    {
      statuses := RaiseAll(statuses, attempts[i], Verdicts(attempts[..i]));
      assert attempts[..i + 1][..i] == attempts[..i];
      i := i + 1;
    }
    assert attempts[..|attempts|] == attempts;
  }

  /** The inner loop of the fold, over the verdicts of one attempt. */
  method RaiseAll(statuses: map<char, CharStatus>, attempt: Attempt, ghost done: seq<LetterStatus>)
    returns (raised: map<char, CharStatus>)
    requires Tracks(statuses, done)
    ensures Tracks(raised, done + attempt)
  {
    raised := statuses;
    var j := 0;
    assert done + attempt[..0] == done;
    while j < |attempt|
      invariant 0 <= j <= |attempt|
      invariant Tracks(raised, done + attempt[..j])
    {
      var v := attempt[j];
      ghost var before := raised;
      if v.letter.Some? {
        var letter := v.letter.value;
        var best := if letter in raised then raised[letter] else Unknown;
        if Rank(best) < Rank(v.kind) {
          raised := raised[letter := v.kind];
        }
      }
      RaiseStep(before, done + attempt[..j], v, raised);
      assert done + attempt[..j + 1] == done + attempt[..j] + [v];
      j := j + 1;
    }
    assert attempt[..|attempt|] == attempt;
  }

  /** Key widths in half-units: enter and backspace are one and a half keys wide. */
  function KeyWidth(k: Key): nat {
    if k == Enter || k == Backspace then 3 else 2
  }

  /** `row.reduce(...)`: the width of a row in half-units. */
  function RowWidth(row: seq<Key>): (w: nat)
    ensures 2 * |row| <= w <= 3 * |row|
  {
    if row == [] then 0 else RowWidth(row[..|row| - 1]) + KeyWidth(row[|row| - 1])
  }

  /** Widths add up over concatenated rows. */
  lemma {:induction false} RowWidthConcat(a: seq<Key>, b: seq<Key>)
    ensures RowWidth(a + b) == RowWidth(a) + RowWidth(b)
    decreases |b|
  {
    if b != [] {
      var init := b[..|b| - 1];
      assert (a + b)[..|a + b| - 1] == a + init;
      assert (a + b)[|a + b| - 1] == b[|b| - 1];
      RowWidthConcat(a, init);
    } else {
      assert a + b == a;
    }
  }

  /** A row of letter keys only is two half-units per key. */
  lemma {:induction false} LetterRowWidth(row: seq<Key>)
    requires forall i :: 0 <= i < |row| ==> row[i].Letter?
    ensures RowWidth(row) == 2 * |row|
  {
    if row != [] {
      LetterRowWidth(row[..|row| - 1]);
    }
  }

  /** `rowSpacingLengths`. */
  function RowWidths(layout: Layout): (ws: seq<nat>)
    ensures |ws| == |layout|
    ensures forall i :: 0 <= i < |layout| ==> ws[i] == RowWidth(layout[i])
  {
    seq(|layout|, i requires 0 <= i < |layout| => RowWidth(layout[i]))
  }

  /** `maxKeyLength`: the largest width, starting from 0. */
  function MaxWidth(ws: seq<nat>): (m: nat)
    ensures forall i :: 0 <= i < |ws| ==> ws[i] <= m
    ensures ws == [] ==> m == 0
    ensures ws != [] ==> exists i :: 0 <= i < |ws| && ws[i] == m
  {
    if ws == [] then 0
    else
      var m := MaxWidth(ws[..|ws| - 1]);
      assert forall i :: 0 <= i < |ws| - 1 ==> ws[..|ws| - 1][i] == ws[i];
      if m < ws[|ws| - 1] then ws[|ws| - 1] else m
  }

  /** `layoutFillers`: how much narrower each row is than the widest one, in
      half-units. */
  function LayoutFillers(layout: Layout): (fillers: seq<int>)
    ensures |fillers| == |layout|
    ensures forall i :: 0 <= i < |layout| ==> fillers[i] >= 0
    ensures forall i :: 0 <= i < |layout| ==> RowWidth(layout[i]) + fillers[i] == MaxWidth(RowWidths(layout))
    ensures layout != [] ==> exists i :: 0 <= i < |layout| && fillers[i] == 0
  {
    var ws := RowWidths(layout);
    var m := MaxWidth(ws);
    seq(|ws|, i requires 0 <= i < |ws| => m - ws[i])
  }

  /** The QWERTY layout: the middle row (nine keys, width 18) gets a filler of two
      half-units, that is one key; the other rows are the widest (width 20). */
  lemma QwertyFillers()
    ensures var qwerty := [
        [Letter('q'), Letter('w'), Letter('e'), Letter('r'), Letter('t'), Letter('y'), Letter('u'), Letter('i'), Letter('o'), Letter('p')],
        [Letter('a'), Letter('s'), Letter('d'), Letter('f'), Letter('g'), Letter('h'), Letter('j'), Letter('k'), Letter('l')],
        [Enter, Letter('z'), Letter('x'), Letter('c'), Letter('v'), Letter('b'), Letter('n'), Letter('m'), Backspace]];
      LayoutFillers(qwerty) == [0, 2, 0]
  {
    var qwerty := [
        [Letter('q'), Letter('w'), Letter('e'), Letter('r'), Letter('t'), Letter('y'), Letter('u'), Letter('i'), Letter('o'), Letter('p')],
        [Letter('a'), Letter('s'), Letter('d'), Letter('f'), Letter('g'), Letter('h'), Letter('j'), Letter('k'), Letter('l')],
        [Enter, Letter('z'), Letter('x'), Letter('c'), Letter('v'), Letter('b'), Letter('n'), Letter('m'), Backspace]];
    LetterRowWidth(qwerty[0]);
    LetterRowWidth(qwerty[1]);
    var middle := qwerty[2][1..8];
    LetterRowWidth(middle);
    assert qwerty[2] == [Enter] + middle + [Backspace];
    RowWidthConcat([Enter], middle);
    RowWidthConcat([Enter] + middle, [Backspace]);
    assert RowWidths(qwerty) == [20, 18, 20];
  }
}
