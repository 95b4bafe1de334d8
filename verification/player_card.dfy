/** The round player button on the pitch (components/player-card.tsx). */
module PlayerCard {
  import opened Text
  import opened Wrappers
  import opened GameTypes
  import Jersey

  /** The button's colour scheme. */
  datatype Style = Solved | Failed | Attempting | Untouched

  /** The attempt badge: default variant when solved, destructive otherwise. */
  datatype BadgeVariant = DefaultVariant | Destructive
  datatype Badge = Badge(count: nat, variant: BadgeVariant)

  datatype CardView = CardView(style: Style, top: string, nameText: string, badge: Option<Badge>)

  predicate IsComplete(state: Option<PlayerState>)
  {
    state.Some? && state.value.isComplete
  }

  /** `isAttempting`: at least one guess and not complete. */
  predicate IsAttempting(state: Option<PlayerState>)
  {
    state.Some? && |state.value.guesses| != 0 && !state.value.isComplete
  }

  /** `isFailed`: exactly eight guesses and not complete. */
  predicate IsFailed(state: Option<PlayerState>)
  {
    state.Some? && |state.value.guesses| == MaxGuesses && !state.value.isComplete
  }

  /** `"*".repeat(n)`. */
  function Stars(n: nat): (r: string)
    ensures |r| == n && forall i :: 0 <= i < n ==> r[i] == '*'
  {
    if n == 0 then [] else Stars(n - 1) + ['*']
  }

  /** The most stars shown for a hidden name. */
  const MaxStars: nat := 8

  function Render(player: PlayerData, state: Option<PlayerState>): CardView
  {
    var complete := IsComplete(state);
    var failed := IsFailed(state);
    var style := if complete then Solved else if failed then Failed
                 else if IsAttempting(state) then Attempting else Untouched;
    var top := if complete then [Jersey.CheckMark] else if failed then [Jersey.CrossMark] else player.position.GetOr([]);
    var nameText := if complete || failed then player.name else Stars(Min(|player.name|, MaxStars));
    var badge := if state.Some? && |state.value.guesses| > 0
                 then Some(Badge(|state.value.guesses|, if state.value.isComplete then DefaultVariant else Destructive))
                 else None;
    CardView(style, top, nameText, badge)
  }

  // ---------------------------------------------------------------------

  /** The style follows the priority complete, failed, attempting, untouched;
      an untouched card has no guesses. */
  lemma StylePriority(player: PlayerData, state: Option<PlayerState>)
    ensures var v := Render(player, state);
      && (v.style == Solved <==> IsComplete(state))
      && (v.style == Failed <==> IsFailed(state))
      && (v.style == Attempting <==> IsAttempting(state) && !IsFailed(state))
      && (v.style == Untouched <==> (state.None? || (|state.value.guesses| == 0 && !state.value.isComplete)))
  {
  }

  /** The name is hidden behind at most eight stars until the puzzle is over;
      the top line is a check mark, a cross, or the position. */
  lemma Masking(player: PlayerData, state: Option<PlayerState>)
    ensures var v := Render(player, state);
      && (IsComplete(state) || IsFailed(state) ==> v.nameText == player.name)
      && (!IsComplete(state) && !IsFailed(state) ==>
            |v.nameText| == Min(|player.name|, MaxStars) && forall i :: 0 <= i < |v.nameText| ==> v.nameText[i] == '*')
      && (IsComplete(state) ==> v.top == [Jersey.CheckMark])
      && (IsFailed(state) ==> v.top == [Jersey.CrossMark])
      && (!IsComplete(state) && !IsFailed(state) ==> v.top == player.position.GetOr([]))
  {
  }

  /** The badge appears exactly when there are guesses and shows their number. */
  lemma BadgeShown(player: PlayerData, state: Option<PlayerState>)
    ensures var v := Render(player, state);
      && (v.badge.Some? <==> state.Some? && |state.value.guesses| > 0)
      && (v.badge.Some? ==> v.badge.value.count == |state.value.guesses|)
  {
  }

  /** With at most eight guesses, as the dialog guarantees, the card's
      "exactly eight" and the jersey's "at least eight" agree. */
  lemma FailedAgreesWithJersey(state: Option<PlayerState>)
    requires state.Some? ==> |state.value.guesses| <= MaxGuesses
    ensures IsFailed(state) <==> Jersey.IsFailed(state)
  {
  }
}
