/** The guessing session of one player's puzzle
    (components/wordle-dialog.tsx): typing, deleting, submitting, closing
    and re-opening. The keyboard-event handler and the on-screen-keyboard
    handler run the same transition, `OnKey`. */
module Dialog {
  import opened Wrappers
  import opened Names
  import opened GameTypes

  /** The dialog's own state. */
  datatype Session = Session(currentGuess: string, guesses: seq<string>, celebrating: bool)

  /** The dialog's inputs: the player shown and the progress saved for them. */
  datatype Props = Props(player: PlayerData, saved: Option<PlayerState>)

  /** A call of `onGuessComplete(playerId, guesses, isComplete)`. */
  datatype Report = Report(playerId: int, guesses: seq<string>, isComplete: bool)

  /** The next state and what, if anything, was reported. */
  datatype Step = Step(next: Session, report: Option<Report>)

  function Target(props: Props): string
  {
    Normalize(props.player.name)
  }

  function SavedCount(props: Props): nat
  {
    if props.saved.Some? then |props.saved.value.guesses| else 0
  }

  /** `isSolved`: the saved state says complete, or a guess matched. */
  predicate IsSolved(props: Props, s: Session)
  {
    (props.saved.Some? && props.saved.value.isComplete) || Target(props) in s.guesses
  }

  /** `isGameOver`: solved, or eight guesses made here or in the saved state. */
  predicate IsGameOver(props: Props, s: Session)
  {
    IsSolved(props, s) || |s.guesses| >= MaxGuesses || SavedCount(props) >= MaxGuesses
  }

  /** The key handler. `normalizeKeyInput` is the key-to-letter mapping of
      lib/utils.ts, which is not part of this model: it yields no letter or
      one letter. */
  function OnKey(props: Props, s: Session, key: string, normalizeKeyInput: string -> Option<char>): Step
  {
    var name := Target(props);
    if IsGameOver(props, s) || s.celebrating then Step(s, None)
    else if key == "Enter" then
      if |s.currentGuess| == |name| then
        var newGuesses := s.guesses + [s.currentGuess];
        var isComplete := s.currentGuess == name;
        var report := if isComplete || |newGuesses| >= MaxGuesses
          then Some(Report(props.player.id, newGuesses, isComplete)) else None;
        Step(Session([], newGuesses, isComplete), report)
      else Step(s, None)
    else if key == "Backspace" then
      Step(s.(currentGuess := if |s.currentGuess| == 0 then [] else s.currentGuess[..|s.currentGuess| - 1]), None)
    else
      var letter := normalizeKeyInput(key);
      if letter.Some? && |s.currentGuess| < |name| then
        Step(s.(currentGuess := s.currentGuess + [letter.value]), None)
      else Step(s, None)
  }

  /** `handleClose(nextOpen)`: the report made when the dialog is dismissed. */
  function OnClose(props: Props, s: Session, nextOpen: bool): Option<Report>
  {
    if nextOpen then None
    else if |s.guesses| > 0 && !IsSolved(props, s) then Some(Report(props.player.id, s.guesses, false))
    else None
  }

  /** The open/close effect: opening (outside a celebration) clears the typed
      guess and restores the saved guesses; closing ends the celebration. */
  function OnOpenChange(props: Props, s: Session, open: bool): Session
  {
    if open then
      if s.celebrating then s
      else Session([], if props.saved.Some? then props.saved.value.guesses else [], s.celebrating)
    else s.(celebrating := false)
  }

  /** The key handler applied to a sequence of keys. */
  function Run(props: Props, s: Session, keys: seq<string>, normalizeKeyInput: string -> Option<char>): Session
    decreases |keys|
  {
    if |keys| == 0 then s
    else Run(props, OnKey(props, s, keys[0], normalizeKeyInput).next, keys[1..], normalizeKeyInput)
  }

  // ---------------------------------------------------------------------

  /** A well-formed guess history for `name`: at most eight guesses, all of
      full length, and none after the one that matched. */
  predicate ValidHistory(name: string, guesses: seq<string>)
  {
    && |guesses| <= MaxGuesses
    && (forall k :: 0 <= k < |guesses| ==> |guesses[k]| == |name|)
    && (forall k :: 0 <= k < |guesses| - 1 ==> guesses[k] != name)
  }

  /** The session invariant: the typed guess never outgrows the name and the
      history is well formed. */
  predicate Valid(props: Props, s: Session)
  {
    |s.currentGuess| <= |Target(props)| && ValidHistory(Target(props), s.guesses)
  }

  /** Every key keeps the session invariant; every report carries a
      well-formed history whose flag says whether the last guess matched. */
  lemma OnKeyKeepsValid(props: Props, s: Session, key: string, normalizeKeyInput: string -> Option<char>)
    requires Valid(props, s)
    ensures Valid(props, OnKey(props, s, key, normalizeKeyInput).next)
    ensures var r := OnKey(props, s, key, normalizeKeyInput).report;
      r.Some? ==> (&& ValidHistory(Target(props), r.value.guesses)
                   && r.value.guesses == s.guesses + [s.currentGuess]
                   && r.value.isComplete == (s.currentGuess == Target(props)))
  {
  }

  /** Any sequence of keys keeps the invariant, so there are never more than
      eight guesses and none follows a matching one. */
  lemma {:induction false} RunKeepsValid(props: Props, s: Session, keys: seq<string>, normalizeKeyInput: string -> Option<char>)
    requires Valid(props, s)
    ensures Valid(props, Run(props, s, keys, normalizeKeyInput))
    decreases |keys|
  {
    if |keys| > 0 {
      OnKeyKeepsValid(props, s, keys[0], normalizeKeyInput);
      RunKeepsValid(props, OnKey(props, s, keys[0], normalizeKeyInput).next, keys[1..], normalizeKeyInput);
    }
  }

  /** Opening restores a saved history; if that history is well formed the
      invariant holds afterwards. */
  lemma OpenKeepsValid(props: Props, s: Session)
    requires Valid(props, s)
    requires props.saved.Some? ==> ValidHistory(Target(props), props.saved.value.guesses)
    ensures Valid(props, OnOpenChange(props, s, true))
    ensures !s.celebrating ==> OnOpenChange(props, s, true).currentGuess == []
    ensures !s.celebrating && props.saved.Some? ==> OnOpenChange(props, s, true).guesses == props.saved.value.guesses
  {
  }

  /** Once the game is over or a celebration runs, every key is ignored. */
  lemma GameOverIgnoresKeys(props: Props, s: Session, key: string, normalizeKeyInput: string -> Option<char>)
    requires IsGameOver(props, s) || s.celebrating
    ensures OnKey(props, s, key, normalizeKeyInput) == Step(s, None)
  {
  }

  /** Enter on a guess shorter than the name changes nothing. */
  lemma ShortEnterIgnored(props: Props, s: Session, normalizeKeyInput: string -> Option<char>)
    requires |s.currentGuess| < |Target(props)|
    ensures OnKey(props, s, "Enter", normalizeKeyInput) == Step(s, None)
  {
  }

  /** Enter on a full-length guess while the game runs records it and clears
      the typed guess; a report is made exactly when it matched or was the
      eighth, and it says whether it matched. */
  lemma FullEnterSubmits(props: Props, s: Session, normalizeKeyInput: string -> Option<char>)
    requires !IsGameOver(props, s) && !s.celebrating
    requires |s.currentGuess| == |Target(props)|
    ensures var step := OnKey(props, s, "Enter", normalizeKeyInput);
      && step.next.guesses == s.guesses + [s.currentGuess]
      && step.next.currentGuess == []
      && step.next.celebrating == (s.currentGuess == Target(props))
      && (step.report.Some? <==> s.currentGuess == Target(props) || |s.guesses| + 1 == MaxGuesses)
      && (step.report.Some? ==>
            step.report.value == Report(props.player.id, s.guesses + [s.currentGuess], s.currentGuess == Target(props)))
  {
  }

  /** Backspace drops the last typed letter and leaves an empty guess empty. */
  lemma BackspaceDrops(props: Props, s: Session, normalizeKeyInput: string -> Option<char>)
    requires !IsGameOver(props, s) && !s.celebrating
    ensures var next := OnKey(props, s, "Backspace", normalizeKeyInput).next;
      && next.guesses == s.guesses
      && (|s.currentGuess| == 0 ==> next.currentGuess == [])
      && (|s.currentGuess| > 0 ==> next.currentGuess + [s.currentGuess[|s.currentGuess| - 1]] == s.currentGuess)
  {
  }

  /** Any other key appends a letter exactly when the mapping yields one and
      the typed guess is still shorter than the name. */
  lemma LetterAppends(props: Props, s: Session, key: string, normalizeKeyInput: string -> Option<char>)
    requires !IsGameOver(props, s) && !s.celebrating
    requires key != "Enter" && key != "Backspace"
    ensures var next := OnKey(props, s, key, normalizeKeyInput).next;
      && next.guesses == s.guesses
      && (if normalizeKeyInput(key).Some? && |s.currentGuess| < |Target(props)|
          then next.currentGuess == s.currentGuess + [normalizeKeyInput(key).value]
          else next.currentGuess == s.currentGuess)
  {
  }

  /** Only Enter ever reports. */
  lemma OnlyEnterReports(props: Props, s: Session, key: string, normalizeKeyInput: string -> Option<char>)
    requires key != "Enter"
    ensures OnKey(props, s, key, normalizeKeyInput).report == None
  {
  }

  /** Closing reports the history, marked incomplete, exactly when there is at
      least one guess and the puzzle is unsolved. */
  lemma CloseReport(props: Props, s: Session)
    ensures OnClose(props, s, false).Some? <==> |s.guesses| > 0 && !IsSolved(props, s)
    ensures OnClose(props, s, false).Some? ==> OnClose(props, s, false).value == Report(props.player.id, s.guesses, false)
    ensures OnClose(props, s, true) == None
  {
  }
}
