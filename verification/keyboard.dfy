/** Keyboard colouring (components/wordle-keyboard.tsx): the best status a
    letter has reached over all submitted guesses. */
module Keyboard {
  import opened Text
  import opened Names
  import Grid

  /** An on-screen key. Letter keys are the upper-case letters of the layout. */
  datatype Key = Enter | Backspace | Letter(c: char)

  /** Key colours, in increasing order of information. */
  datatype KeyStatus = Default | Absent | Present | Correct

  function Rank(s: KeyStatus): nat
  {
    match s
    case Default => 0
    case Absent => 1
    case Present => 2
    case Correct => 3
  }

  function Max(a: KeyStatus, b: KeyStatus): (m: KeyStatus)
    ensures Rank(m) >= Rank(a) && Rank(m) >= Rank(b)
    ensures m == a || m == b
  {
    if Rank(a) >= Rank(b) then a else b
  }

  /** The key colour a grid tile status stands for. */
  function FromGrid(s: Grid.LetterStatus): KeyStatus
  {
    match s
    case Empty => Default
    case Absent => Absent
    case Present => Present
    case Correct => Correct
  }

  /** The best grid status of `c` over the positions of `guess` below `n`. */
  function BestInGuess(target: string, guess: string, c: char, n: nat): KeyStatus
    requires n <= |guess|
  {
    if n == 0 then Default
    else
      var here := if guess[n - 1] == c then FromGrid(Grid.GridStatus(target, guess, n - 1)) else Default;
      Max(BestInGuess(target, guess, c, n - 1), here)
  }

  /** The best grid status of `c` over every position of every guess. */
  function BestOverGuesses(target: string, guesses: seq<string>, c: char): KeyStatus
  {
    if |guesses| == 0 then Default
    else
      var last := guesses[|guesses| - 1];
      Max(BestOverGuesses(target, guesses[..|guesses| - 1], c), BestInGuess(target, last, c, |last|))
  }

  /** The key colour as the maximum of the grid's colours: the reference the
      keyboard's own loop is proved against. */
  function KeyColour(word: string, guesses: seq<string>, key: Key): KeyStatus
  {
    match key
    case Enter => Default
    case Backspace => Default
    case Letter(c) => BestOverGuesses(Normalize(word), guesses, c)
  }

  // ---------------------------------------------------------------------

  /** `getKeyStatus(key)`: walks every guess, and the colour only upgrades.
      It equals the best grid colour of the letter over all positions. */
  method GetKeyStatus(word: string, guesses: seq<string>, key: Key) returns (bestStatus: KeyStatus)
    ensures bestStatus == KeyColour(word, guesses, key)
  {
    if key == Enter || key == Backspace {
      return Default;
    }
    bestStatus := Default;
    var target := Normalize(word);
    var letterCounts := Grid.CountLetters(target);
    var g := 0;
    while g < |guesses|
      invariant 0 <= g <= |guesses|
      invariant bestStatus == BestOverGuesses(target, guesses[..g], key.c)
    {
      bestStatus := ScanGuess(target, guesses[g], key.c, letterCounts, bestStatus);
      assert guesses[..g + 1][..g] == guesses[..g];
      g := g + 1;
    }
    assert guesses[..g] == guesses;
  }

  /** The body of the loop over guesses: marks the guess's correct positions,
      then walks it left to right taking leftover counts for misses of the
      letter, stopping at its first correct copy. The colour `before` is
      upgraded to the best grid colour of the letter in this guess. */
  method ScanGuess(target: string, guess: string, letter: char, letterCounts: map<char, int>, before: KeyStatus)
    returns (bestStatus: KeyStatus)
    requires forall c :: Grid.Get(letterCounts, c) == Count(target, c)
    ensures bestStatus == Max(before, BestInGuess(target, guess, letter, |guess|))
  {
    bestStatus := before;
    var correctPositions, remainingCounts := Grid.MarkCorrect(target, guess, letterCounts);
    ghost var R := Grid.Remaining(target, guess, letter);
    Grid.RemainingNonNegative(target, guess, letter);
    var i := 0;
    while i < |guess|
      invariant 0 <= i <= |guess|
      invariant bestStatus == Max(before, BestInGuess(target, guess, letter, i))
      invariant Grid.Get(remainingCounts, letter) == R - Min(Grid.Misses(target, guess, letter, i), R)
    {
      if guess[i] == letter && i in correctPositions {
        BestInGuessReachesCorrect(target, guess, letter, i, |guess|);
        return Correct;
      }
      ScanStep(target, guess, letter, i, bestStatus, before, Grid.Get(remainingCounts, letter));
      if guess[i] == letter {
        var remainingCount := Grid.Get(remainingCounts, letter);
        if remainingCount > 0 {
          remainingCounts := remainingCounts[letter := remainingCount - 1];
          if bestStatus != Correct {
            bestStatus := Present;
          }
        } else if bestStatus == Default {
          bestStatus := Absent;
        }
      }
      i := i + 1;
    }
  }

  /** One step of the keyboard's walk over a guess at a position that is not a
      correct copy of `c`: a miss takes a leftover count and upgrades to
      `Present` while one is left, and to `Absent` otherwise, just as the
      grid colours that position. */
  lemma ScanStep(target: string, guess: string, c: char, i: nat, best: KeyStatus, before: KeyStatus, rem: int)
    requires i < |guess|
    requires !(guess[i] == c && Grid.IsCorrectAt(target, guess, i))
    requires best == Max(before, BestInGuess(target, guess, c, i))
    requires rem == Grid.Remaining(target, guess, c) - Min(Grid.Misses(target, guess, c, i), Grid.Remaining(target, guess, c))
    ensures var next :=
        if guess[i] != c then best
        else if rem > 0 then (if best != Correct then Present else best)
        else if best == Default then Absent else best;
      next == Max(before, BestInGuess(target, guess, c, i + 1))
    ensures var R := Grid.Remaining(target, guess, c);
      (if guess[i] == c && rem > 0 then rem - 1 else rem) == R - Min(Grid.Misses(target, guess, c, i + 1), R)
  {
    Grid.RemainingNonNegative(target, guess, c);
    if guess[i] == c {
      Grid.GridStatusCases(target, guess, i);
    }
  }

  /** Once a correct copy of `c` has been passed, the best colour is `Correct`. */
  lemma {:induction false} BestInGuessReachesCorrect(target: string, guess: string, c: char, i: nat, n: nat)
    requires i < n <= |guess| && guess[i] == c && Grid.IsCorrectAt(target, guess, i)
    ensures BestInGuess(target, guess, c, n) == Correct
  {
    if n - 1 > i {
      BestInGuessReachesCorrect(target, guess, c, i, n - 1);
    }
  }

  // ---------------------------------------------------------------------
  // properties of the key colour

  /** Enter and Backspace are never coloured. */
  lemma ControlKeysDefault(word: string, guesses: seq<string>)
    ensures KeyColour(word, guesses, Enter) == Default
    ensures KeyColour(word, guesses, Backspace) == Default
  {
  }

  lemma {:induction false} UnusedInGuess(target: string, guess: string, c: char, n: nat)
    requires n <= |guess| && c !in guess
    ensures BestInGuess(target, guess, c, n) == Default
  {
    if n > 0 {
      UnusedInGuess(target, guess, c, n - 1);
      assert guess[n - 1] in guess;
    }
  }

  /** A letter that occurs in no guess stays `Default`. */
  lemma {:induction false} UnusedLetterDefault(target: string, guesses: seq<string>, c: char)
    requires forall k :: 0 <= k < |guesses| ==> c !in guesses[k]
    ensures BestOverGuesses(target, guesses, c) == Default
  {
    if |guesses| > 0 {
      var last := guesses[|guesses| - 1];
      UnusedLetterDefault(target, guesses[..|guesses| - 1], c);
      UnusedInGuess(target, last, c, |last|);
    }
  }

  lemma {:induction false} CorrectInGuessWitness(target: string, guess: string, c: char, n: nat) returns (i: nat)
    requires n <= |guess| && BestInGuess(target, guess, c, n) == Correct
    ensures i < n && guess[i] == c && Grid.IsCorrectAt(target, guess, i)
  {
    var here := if guess[n - 1] == c then FromGrid(Grid.GridStatus(target, guess, n - 1)) else Default;
    if here == Correct {
      i := n - 1;
    } else {
      i := CorrectInGuessWitness(target, guess, c, n - 1);
    }
  }

  /** A letter is `Correct` on the keyboard exactly when some guess has it at
      a position where the target has it too. */
  lemma {:induction false} CorrectIff(target: string, guesses: seq<string>, c: char)
    ensures BestOverGuesses(target, guesses, c) == Correct <==>
      exists k, i :: 0 <= k < |guesses| && 0 <= i < |guesses[k]| && i < |target|
        && guesses[k][i] == c && target[i] == c
  {
    if |guesses| > 0 {
      var n := |guesses| - 1;
      var last := guesses[n];
      CorrectIff(target, guesses[..n], c);
      if BestOverGuesses(target, guesses, c) == Correct {
        if BestInGuess(target, last, c, |last|) == Correct {
          var i := CorrectInGuessWitness(target, last, c, |last|);
          assert guesses[n][i] == c && target[i] == c;
        } else {
          var k, i :| 0 <= k < n && 0 <= i < |guesses[..n][k]| && i < |target| && guesses[..n][k][i] == c && target[i] == c;
          assert guesses[k][i] == c;
        }
      } else {
        forall k, i | 0 <= k < |guesses| && 0 <= i < |guesses[k]| && i < |target| && guesses[k][i] == c
          ensures target[i] != c
        {
          if k == n {
            if target[i] == c {
              BestInGuessReachesCorrect(target, last, c, i, |last|);
            }
          } else {
            assert guesses[..n][k] == guesses[k];
          }
        }
      }
    }
  }

  /** Colours only upgrade: adding a guess never lowers a key's rank, and a
      `Correct` key stays `Correct`. */
  lemma MonotoneUnderNewGuess(word: string, guesses: seq<string>, guess: string, key: Key)
    ensures Rank(KeyColour(word, guesses, key)) <= Rank(KeyColour(word, guesses + [guess], key))
    ensures KeyColour(word, guesses, key) == Correct ==> KeyColour(word, guesses + [guess], key) == Correct
  {
    assert (guesses + [guess])[..|guesses|] == guesses;
  }

  /** Each guess contributes independently of the others: the colour over a
      list of guesses is the maximum of the colours over each part. */
  lemma {:induction false} GuessesScoredIndependently(target: string, a: seq<string>, b: seq<string>, c: char)
    ensures BestOverGuesses(target, a + b, c) == Max(BestOverGuesses(target, a, c), BestOverGuesses(target, b, c))
    decreases |b|
  {
    if |b| == 0 {
      assert a + b == a;
    } else {
      var last := b[|b| - 1];
      assert (a + b)[..|a + b| - 1] == a + b[..|b| - 1];
      GuessesScoredIndependently(target, a, b[..|b| - 1], c);
    }
  }

  /** Counts come from the normalised name: two raw names with the same
      canonical form colour every key alike, so punctuation never counts. */
  lemma OnlyNormalizedNameCounts(word: string, guesses: seq<string>, key: Key)
    ensures KeyColour(word, guesses, key) == KeyColour(Normalize(word), guesses, key)
  {
    NormalizeIdempotent(word);
  }
}
