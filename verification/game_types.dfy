/** The record shapes the components exchange: a player of the lineup and
    the saved progress of that player's puzzle. */
module GameTypes {
  import opened Wrappers

  /** A lineup entry. `position` is `None` where the position table had no
      entry for this index (JavaScript reads `undefined` there). */
  datatype PlayerData = PlayerData(id: int, name: string, position: Option<string>)

  /** The number of guesses a puzzle allows, and the number of grid rows. */
  const MaxGuesses: nat := 8

  /** The saved progress of one player's puzzle. */
  datatype PlayerState = PlayerState(guesses: seq<string>, isComplete: bool)
}
