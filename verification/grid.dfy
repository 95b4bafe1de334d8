/** Letter scoring and grid layout of the guessing grid
    (components/wordle-grid.tsx). */
module Grid {
  import opened Text
  import opened Names
  import opened Wrappers
  import opened GameTypes

  /** The colour state of one grid tile. */
  datatype LetterStatus = Empty | Absent | Present | Correct

  /** Position `i` of `guess` holds the target's letter at `i`. A position
      past the end of the target compares a letter with `undefined` and is
      never correct. */
  predicate IsCorrectAt(target: string, guess: string, i: int)
  {
    0 <= i < |guess| && i < |target| && guess[i] == target[i]
  }

  /** Number of correct positions below `n` holding `c`. */
  function CorrectCount(target: string, guess: string, c: char, n: nat): nat
    requires n <= |guess|
  {
    if n == 0 then 0
    else CorrectCount(target, guess, c, n - 1) + (if guess[n - 1] == c && IsCorrectAt(target, guess, n - 1) then 1 else 0)
  }

  /** Number of positions below `n` holding `c` that are not correct. */
  function Misses(target: string, guess: string, c: char, n: nat): nat
    requires n <= |guess|
  {
    if n == 0 then 0
    else Misses(target, guess, c, n - 1) + (if guess[n - 1] == c && !IsCorrectAt(target, guess, n - 1) then 1 else 0)
  }

  /** Occurrences of `c` in the target left over after the correct positions
      have taken theirs. */
  function Remaining(target: string, guess: string, c: char): int
  {
    Count(target, c) - CorrectCount(target, guess, c, |guess|)
  }

  /** The status of position `p` of a submitted `guess` against the
      normalised `target`: correct positions first, then left-to-right
      "present" marks while the leftover count of the letter lasts. */
  function GridStatus(target: string, guess: string, p: int): LetterStatus
  {
    if !(0 <= p < |guess|) then Empty
    else if IsCorrectAt(target, guess, p) then Correct
    else
      var remaining := Remaining(target, guess, guess[p]);
      if remaining > 0 && Misses(target, guess, guess[p], p) < remaining then Present else Absent
  }

  /** `letterCounts.get(c) || 0`. */
  function Get(m: map<char, int>, c: char): int
  {
    if c in m then m[c] else 0
  }

  // ---------------------------------------------------------------------
  // the two passes, as the source runs them

  /** The letter-count table of the target. */
  method CountLetters(target: string) returns (counts: map<char, int>)
    ensures forall c :: Get(counts, c) == Count(target, c)
  {
    counts := map[];
    var k := 0;
    while k < |target|
      invariant 0 <= k <= |target|
      invariant forall c :: Get(counts, c) == Count(target[..k], c)
    {
      assert target[..k + 1][..k] == target[..k];
      counts := counts[target[k] := Get(counts, target[k]) + 1];
      k := k + 1;
    }
    assert target[..k] == target;
  }

  /** First pass: marks the correct positions and takes one count of the
      letter for each of them. */
  method MarkCorrect(target: string, guess: string, counts: map<char, int>)
    returns (correctPositions: set<int>, remaining: map<char, int>)
    requires forall c :: Get(counts, c) == Count(target, c)
    ensures forall j :: j in correctPositions <==> IsCorrectAt(target, guess, j)
    ensures forall c :: Get(remaining, c) == Remaining(target, guess, c)
  {
    correctPositions := {};
    remaining := counts;
    var i := 0;
    while i < |guess|
      invariant 0 <= i <= |guess|
      invariant forall j :: j in correctPositions <==> 0 <= j < i && IsCorrectAt(target, guess, j)
      invariant forall c :: Get(remaining, c) == Count(target, c) - CorrectCount(target, guess, c, i)
    {
      if i < |target| && guess[i] == target[i] {
        correctPositions := correctPositions + {i};
        remaining := remaining[guess[i] := Get(remaining, guess[i]) - 1];
      }
      i := i + 1;
    }
  }

  /** `getLetterStatus(guess, position)` for the raw player name `word`. */
  method GetLetterStatus(word: string, guess: string, position: int) returns (status: LetterStatus)
    ensures status == GridStatus(Normalize(word), guess, position)
  {
    if !(0 <= position < |guess|) {
      return Empty;
    }
    var letter := guess[position];
    var target := Normalize(word);
    var counts := CountLetters(target);
    var correctPositions, letterCounts := MarkCorrect(target, guess, counts);
    if position in correctPositions {
      return Correct;
    }
    var remainingCount := Get(letterCounts, letter);
    if remainingCount > 0 {
      var yellowsUsed := 0;
      var i := 0;
      while i < position
        invariant 0 <= i <= position
        invariant yellowsUsed == Misses(target, guess, letter, i)
      {
        if guess[i] == letter && i !in correctPositions {
          yellowsUsed := yellowsUsed + 1;
        }
        i := i + 1;
      }
      if yellowsUsed < remainingCount {
        return Present;
      }
    }
    return Absent;
  }

  // ---------------------------------------------------------------------
  // properties of the scoring rule

  /** Correct positions holding `c` never outnumber the occurrences of `c`
      in the target, so the leftover count is never negative. */
  lemma {:induction false} CorrectCountBound(target: string, guess: string, c: char, n: nat)
    requires n <= |guess|
    ensures n <= |target| ==> CorrectCount(target, guess, c, n) <= Count(target[..n], c)
    ensures n > |target| ==> CorrectCount(target, guess, c, n) <= Count(target, c)
  {
    if n > 0 {
      CorrectCountBound(target, guess, c, n - 1);
      if n <= |target| {
        assert target[..n][..n - 1] == target[..n - 1];
      } else if n - 1 == |target| {
        assert target[..n - 1] == target;
      }
    }
  }

  lemma RemainingNonNegative(target: string, guess: string, c: char)
    ensures Remaining(target, guess, c) >= 0
  {
    CorrectCountBound(target, guess, c, |guess|);
    if |guess| <= |target| {
      var t := target[..|guess|];
      assert target == t + target[|guess|..];
      CountAppend(t, target[|guess|..], c);
    }
  }

  /** The three cases of the rule: no letter gives `Empty`; a position is
      `Correct` exactly when guess and target agree there; otherwise it is
      `Present` exactly when fewer earlier non-correct copies of its letter
      exist than the target's count minus the correct copies. */
  lemma GridStatusCases(target: string, guess: string, p: int)
    ensures GridStatus(target, guess, p) == Empty <==> !(0 <= p < |guess|)
    ensures GridStatus(target, guess, p) == Correct <==> 0 <= p < |guess| && p < |target| && guess[p] == target[p]
    ensures 0 <= p < |guess| && !IsCorrectAt(target, guess, p) ==>
      (GridStatus(target, guess, p) == Present <==>
         Misses(target, guess, guess[p], p) < Count(target, guess[p]) - CorrectCount(target, guess, guess[p], |guess|))
  {
    if 0 <= p < |guess| {
      RemainingNonNegative(target, guess, guess[p]);
    }
  }

  /** A letter that does not occur in the target is always `Absent`. */
  lemma {:induction false} AbsentLetter(target: string, guess: string, p: int)
    requires 0 <= p < |guess| && guess[p] !in target
    ensures GridStatus(target, guess, p) == Absent
  {
    CountBound(target, guess[p]);
    RemainingNonNegative(target, guess, guess[p]);
    if p < |target| {
      assert target[p] in target;
    }
  }

  /** Number of positions below `n` holding `c` that are coloured correct or present. */
  function Marked(target: string, guess: string, c: char, n: nat): nat
    requires n <= |guess|
  {
    if n == 0 then 0
    else
      var marked := guess[n - 1] == c && GridStatus(target, guess, n - 1) in {Correct, Present};
      Marked(target, guess, c, n - 1) + (if marked then 1 else 0)
  }

  /** Exactly as many copies of `c` are coloured as the correct ones plus as
      many misses as the leftover count allows. */
  lemma {:induction false} MarkedExact(target: string, guess: string, c: char, n: nat)
    requires n <= |guess|
    ensures Marked(target, guess, c, n)
      == CorrectCount(target, guess, c, n) + Min(Misses(target, guess, c, n), Remaining(target, guess, c))
  {
    RemainingNonNegative(target, guess, c);
    if n > 0 {
      MarkedExact(target, guess, c, n - 1);
    }
  }

  /** For every letter, correct plus present tiles never exceed its number
      of occurrences in the target. */
  lemma LetterBudget(target: string, guess: string, c: char)
    ensures Marked(target, guess, c, |guess|) <= Count(target, c)
  {
    MarkedExact(target, guess, c, |guess|);
  }

  // ---------------------------------------------------------------------
  // layout

  /** The column gap in pixels for a row of `boxCount` boxes. */
  function GapPx(boxCount: nat): (gap: nat)
    ensures gap == 6 || gap == 4 || gap == 3 || gap == 2
  {
    if boxCount > 26 then 2 else if boxCount > 20 then 3 else if boxCount > 14 then 4 else 6
  }

  /** Longer names never get a wider gap. */
  lemma GapPxMonotone(a: nat, b: nat)
    requires a <= b
    ensures GapPx(b) <= GapPx(a)
  {
  }

  /** Number of special boxes. */
  function SpecialBoxCount(boxes: seq<Box>): nat
  {
    if |boxes| == 0 then 0 else (if boxes[0].isSpecial then 1 else 0) + SpecialBoxCount(boxes[1..])
  }

  /** The guess index shown in display column `col`: the column minus the
      special boxes before it. */
  function GuessIndex(name: string, col: nat): int
    requires col <= |name|
  {
    col - SpecialBoxCount(DisplayBoxes(name)[..col])
  }

  lemma {:induction false} SpecialBoxCountIsSpecialCount(name: string)
    ensures SpecialBoxCount(DisplayBoxes(name)) == SpecialCount(name)
  {
    if |name| > 0 {
      SpecialBoxCountIsSpecialCount(name[1..]);
      assert DisplayBoxes(name)[1..] == DisplayBoxes(name[1..]);
    }
  }

  /** The guess index of a column is the length of the normalised prefix before it. */
  lemma GuessIndexIsPrefixLength(name: string, col: nat)
    requires col <= |name|
    ensures GuessIndex(name, col) == |Normalize(name[..col])|
  {
    assert DisplayBoxes(name)[..col] == DisplayBoxes(name[..col]);
    SpecialBoxCountIsSpecialCount(name[..col]);
    NormalizeLength(name[..col]);
  }

  /** A non-special column maps into the normalised name, onto its own character. */
  lemma GuessIndexInRange(name: string, col: nat)
    requires col < |name| && !IsSpecial(name[col])
    ensures 0 <= GuessIndex(name, col) < |Normalize(name)|
    ensures Normalize(name)[GuessIndex(name, col)] == name[col]
  {
    GuessIndexIsPrefixLength(name, col);
    assert name == name[..col] + ([name[col]] + name[col + 1..]);
    NormalizeAppend(name[..col], [name[col]] + name[col + 1..]);
    NormalizeAppend([name[col]], name[col + 1..]);
    assert Normalize([name[col]]) == [name[col]];
  }

  /** Distinct non-special columns get distinct guess indexes, in order. */
  lemma GuessIndexIncreasing(name: string, c1: nat, c2: nat)
    requires c1 < c2 <= |name| && !IsSpecial(name[c1])
    ensures GuessIndex(name, c1) < GuessIndex(name, c2)
  {
    GuessIndexIsPrefixLength(name, c1);
    GuessIndexIsPrefixLength(name, c2);
    assert name[..c2] == name[..c1] + ([name[c1]] + name[c1 + 1..c2]);
    NormalizeAppend(name[..c1], [name[c1]] + name[c1 + 1..c2]);
    NormalizeAppend([name[c1]], name[c1 + 1..c2]);
    assert Normalize([name[c1]]) == [name[c1]];
  }

  /** Dropping the first character of the name shifts every later column's
      guess index by one, unless that character is punctuation. */
  lemma GuessIndexShift(name: string, c: nat)
    requires c < |name|
    ensures GuessIndex(name, c + 1) == GuessIndex(name[1..], c) + (if name[0] in Stripped then 0 else 1)
  {
    GuessIndexIsPrefixLength(name[1..], c);
    GuessIndexIsPrefixLength(name, c + 1);
    var p := name[..c + 1];
    assert p[0] == name[0];
    assert p[1..] == name[1..][..c];
  }

  /** Every index of the normalised name is shown in some non-special column. */
  lemma {:induction false} ColumnOf(name: string, k: nat) returns (col: nat)
    requires k < |Normalize(name)|
    ensures col < |name| && !IsSpecial(name[col]) && GuessIndex(name, col) == k
  {
    if name[0] in Stripped {
      var c := ColumnOf(name[1..], k);
      col := c + 1;
      GuessIndexShift(name, c);
    } else if k == 0 {
      col := 0;
      GuessIndexIsPrefixLength(name, 0);
    } else {
      var c := ColumnOf(name[1..], k - 1);
      col := c + 1;
      GuessIndexShift(name, c);
    }
  }

  // ---------------------------------------------------------------------
  // rows

  /** What the grid shows in one tile position. */
  datatype Cell = Punctuation(ch: char) | Tile(letter: Option<char>, status: LetterStatus)

  /** The guess displayed in row `row`: the row after the last submitted
      guess shows the guess being typed; later rows show nothing. */
  function RowGuess(guesses: seq<string>, currentGuess: string, row: nat): Option<string>
  {
    if row == |guesses| then Some(currentGuess)
    else if row < |guesses| then Some(guesses[row])
    else None
  }

  /** The tile at (`row`, `col`) of the grid for raw name `word`. Statuses are
      shown only for submitted guesses. */
  function CellAt(word: string, guesses: seq<string>, currentGuess: string, row: nat, col: nat): Cell
    requires col < |word|
  {
    var box := DisplayBoxes(word)[col];
    if box.isSpecial then Punctuation(box.ch)
    else
      var idx := GuessIndex(word, col);
      var guess := RowGuess(guesses, currentGuess, row);
      var showStatus := row < |guesses|;
      var letter := if guess.Some? && 0 <= idx < |guess.value| then Some(guess.value[idx]) else None;
      Tile(letter, if showStatus then GridStatus(Normalize(word), guess.value, idx) else Empty)
  }

  /** A submitted row is scored against its own guess only: the tile equals
      the grid status of that guess at the column's guess index, whatever
      the other guesses and the guess being typed are. */
  lemma SubmittedRowCell(word: string, guesses: seq<string>, currentGuess: string, row: nat, col: nat)
    requires col < |word| && !IsSpecial(word[col]) && row < |guesses|
    ensures CellAt(word, guesses, currentGuess, row, col).Tile?
    ensures CellAt(word, guesses, currentGuess, row, col).status
      == GridStatus(Normalize(word), guesses[row], GuessIndex(word, col))
    ensures forall others: seq<string>, typed: string ::
      row < |others| && others[row] == guesses[row] ==>
        CellAt(word, others, typed, row, col) == CellAt(word, guesses, currentGuess, row, col)
  {
  }

  /** The row being typed and the rows below it never show a colour. */
  lemma OpenRowsUncoloured(word: string, guesses: seq<string>, currentGuess: string, row: nat, col: nat)
    requires col < |word| && row >= |guesses|
    ensures CellAt(word, guesses, currentGuess, row, col).Tile? ==>
      CellAt(word, guesses, currentGuess, row, col).status == Empty
  {
  }

  /** The whole board: `MaxGuesses` rows (`Array(8)`), one cell per display
      box in each. */
  function Board(word: string, guesses: seq<string>, currentGuess: string): (board: seq<seq<Cell>>)
    ensures |board| == MaxGuesses
    ensures forall r :: 0 <= r < |board| ==> |board[r]| == |word|
  {
    seq(MaxGuesses, r requires 0 <= r < MaxGuesses =>
      seq(|word|, c requires 0 <= c < |word| => CellAt(word, guesses, currentGuess, r, c)))
  }

  /** While guesses remain, the row after the submitted ones shows the
      guess being typed, uncoloured. */
  lemma TypingRowShown(word: string, guesses: seq<string>, currentGuess: string, col: nat)
    requires |guesses| < MaxGuesses && col < |word| && !IsSpecial(word[col])
    requires 0 <= GuessIndex(word, col) < |currentGuess|
    ensures Board(word, guesses, currentGuess)[|guesses|][col]
      == Tile(Some(currentGuess[GuessIndex(word, col)]), Empty)
  {
    SpecialIsStripped(word[col]);
    assert Board(word, guesses, currentGuess)[|guesses|][col] == CellAt(word, guesses, currentGuess, |guesses|, col);
  }

  /** Once all eight guesses are in, there is no typing row: the board does
      not depend on the guess being typed. */
  lemma FullBoardHidesTyping(word: string, guesses: seq<string>, a: string, b: string)
    requires |guesses| >= MaxGuesses
    ensures Board(word, guesses, a) == Board(word, guesses, b)
  {
    var x := Board(word, guesses, a);
    var y := Board(word, guesses, b);
    forall r | 0 <= r < MaxGuesses ensures x[r] == y[r] {
      forall c | 0 <= c < |word| ensures x[r][c] == y[r][c] {
        assert RowGuess(guesses, a, r) == RowGuess(guesses, b, r);
      }
    }
  }
}
