# Daily football lineup puzzle — a Dafny model

A daily browser game shows a football match's starting eleven on a pitch.
Each player's name is hidden. Clicking a player opens a Wordle-style puzzle:
up to eight guesses of the player's name. The grid and an on-screen
keyboard colour each guess. This project models the game's logic and
proves what it promises:

- **Names** (`lib/utils.ts`). Name normalisation strips apostrophes,
  hyphens, periods and backticks. The display boxes keep those marks as
  ungraded punctuation boxes.
- **Grid** (`components/wordle-grid.tsx`). The two-pass scoring of one tile
  (correct first, then left-to-right "present" marks while the leftover
  count lasts). Also the mapping from display columns to guess indexes,
  the eight-row board, and the column gap.
- **Keyboard** (`components/wordle-keyboard.tsx`). The key-colour loop,
  proved equal to the best grid colour of the letter over all guesses.
- **Dialog** (`components/wordle-dialog.tsx`). The puzzle state machine:
  keys, Enter, Backspace, the end of a game, the reports it sends, closing
  and re-opening.
- **Daily** (`app/page.tsx`). Picking the day's game for a difficulty from
  the games table, and the game id.
- **Positions** (`lib/api.ts`). Reading a formation code and assigning
  position labels to a lineup.
- **Formation** (`components/formation.tsx`). The pitch rows, slicing the
  lineup into rows, and recording a finished puzzle.
- **Jersey** and **PlayerCard** (`components/jersey.tsx`,
  `components/player-card.tsx`). How a player's progress is shown.

Module `Text` holds the JavaScript string operations the code relies on,
as pure functions with their laws:

- `split` with a one-character separator, and `join`;
- `trim` over a fixed whitespace set;
- decimal numerals.

`Wrappers` holds `Option` and `Result`. `GameTypes` holds `PlayerData` and
`PlayerState` (`types/game.ts`). A player's `position` is an `Option`,
because `assignPositions` leaves it `undefined` past the end of its
table.

Three behaviours of the code that a reader might not expect, and that the
model keeps:

- **Daily selection.** The day's row is the UTC day number modulo the
  pool size (`app/page.tsx:19,41`); there is no hash or pseudorandom
  generator. The day number is a parameter of the model.
- **Unknown formation codes.** `assignPositions` pushes `"GK"` before it
  looks up a three-segment code. So an unknown three-segment code gives
  `"GK", "P1", …, "Pn"`, and player `i` (for `i >= 1`) is labelled `P<i>`.
  Only codes with some other number of segments get `P1..Pn`
  (`lib/api.ts:23-24,56-61,68-72`).
- **Letter scoring.** `getLetterStatus` scores a guess of any length.
  Positions past the end of the target are never correct.

## Model

| member | source | states |
|---|---|---|
| Names.Normalize | lib/utils.ts:8-13 | the result is no longer than the name and contains none of the four stripped marks |
| Names.NormalizeHasNoSpecial | lib/utils.ts:12 | no character of a normalised name is punctuation that the display would grey out |
| Names.NormalizeKeepsPlain | lib/utils.ts:12 | a name without the four marks is unchanged |
| Names.NormalizeIdempotent | lib/utils.ts:8-13 | normalising twice is the same as normalising once |
| Names.NormalizeAppend | lib/utils.ts:12 | normalisation works character by character: the normal form of a concatenation is the concatenation of the normal forms |
| Names.NormalizeLength | lib/utils.ts:12 | the normal form is shorter than the name by exactly the number of punctuation marks |
| Names.NormalizeKeepsCount | lib/utils.ts:12 | every character other than the four marks keeps its number of occurrences |
| Names.SpecialIsStripped | lib/utils.ts:12-18 | a character is a display special exactly when normalisation strips it |
| Names.DisplayBoxes | lib/utils.ts:15-19 | one box per character of the raw name, holding that character and marked special exactly when normalisation strips it |
| Names.BoxesSpellNormalized | lib/utils.ts:8-19 | the non-special boxes, read in order, spell the normalised name |
| Grid.GetLetterStatus | components/wordle-grid.tsx:49-93 | the two-pass loop returns the reference status of the position: `Empty` with no letter, `Correct`/`Present`/`Absent` by the multiset rule |
| Grid.CountLetters | components/wordle-grid.tsx:55-60 | every letter's entry is its number of occurrences in the normalised name |
| Grid.MarkCorrect | components/wordle-grid.tsx:62-69 | the marked set is exactly the positions where guess and name agree; each letter's leftover is its count minus its correct copies |
| Grid.GridStatusCases | components/wordle-grid.tsx:49-93 | no letter gives `Empty`; `Correct` exactly where guess and target agree; otherwise `Present` exactly when fewer earlier non-correct copies exist than the leftover count |
| Grid.AbsentLetter | components/wordle-grid.tsx:77-92 | a letter that does not occur in the target is always `Absent` |
| Grid.CorrectCountBound | components/wordle-grid.tsx:62-69 | correct copies of a letter never outnumber its occurrences in the target |
| Grid.RemainingNonNegative | components/wordle-grid.tsx:66-67 | the leftover count after the first pass is never negative |
| Grid.MarkedExact | components/wordle-grid.tsx:62-90 | the number of coloured copies of a letter is its correct copies plus as many misses as the leftover count allows |
| Grid.LetterBudget | components/wordle-grid.tsx:62-90 | correct plus present tiles of a letter never exceed its occurrences in the target |
| Grid.GapPx | components/wordle-grid.tsx:16 | the gap is one of 6, 4, 3 or 2 pixels |
| Grid.GapPxMonotone | components/wordle-grid.tsx:16 | a longer name never gets a wider gap |
| Grid.SpecialBoxCountIsSpecialCount | components/wordle-grid.tsx:118-121 | the special boxes of a name are as many as its punctuation marks |
| Grid.GuessIndexIsPrefixLength | components/wordle-grid.tsx:118-122 | the guess index of a column is the length of the normalised prefix before it |
| Grid.GuessIndexInRange | components/wordle-grid.tsx:118-124 | a non-special column maps into the normalised name, onto the column's own character |
| Grid.GuessIndexIncreasing | components/wordle-grid.tsx:118-124 | distinct non-special columns get distinct guess indexes, in column order |
| Grid.ColumnOf | components/wordle-grid.tsx:104-124 | every letter of the normalised name is shown in some non-special column |
| Grid.SubmittedRowCell | components/wordle-grid.tsx:97-125 | a submitted row's tile is the status of that row's guess at the column's guess index, whatever the other rows and the typed guess are |
| Grid.OpenRowsUncoloured | components/wordle-grid.tsx:97-125 | the row being typed and the rows below it never show a colour |
| Grid.Board | components/wordle-grid.tsx:11 | the board has eight rows, each with one cell per display box |
| Grid.TypingRowShown | components/wordle-grid.tsx:98-99 | while guesses remain, the row after the submitted ones shows the typed letters, uncoloured |
| Grid.FullBoardHidesTyping | components/wordle-grid.tsx:97-100 | after eight guesses there is no typing row: the board does not depend on the typed guess |
| Keyboard.Max | components/wordle-keyboard.tsx:56-67 | the colour only upgrades: the result is one of the two, ranked at least as high as both |
| Keyboard.GetKeyStatus | components/wordle-keyboard.tsx:27-73 | the loop with its leftover counts and early stop returns the best grid colour of the key's letter over every position of every guess |
| Keyboard.ScanGuess | components/wordle-keyboard.tsx:39-70 | the walk over one guess, with fresh leftover counts and an early stop at a correct copy, upgrades the colour to the best grid colour of the letter in that guess |
| Keyboard.BestInGuessReachesCorrect | components/wordle-keyboard.tsx:55-57 | once a correct copy has been passed, the best colour is `Correct`, so stopping there loses nothing |
| Keyboard.ControlKeysDefault | components/wordle-keyboard.tsx:28 | Enter and Backspace are never coloured |
| Keyboard.UnusedLetterDefault | components/wordle-keyboard.tsx:30-54 | a letter that occurs in no guess stays uncoloured |
| Keyboard.CorrectIff | components/wordle-keyboard.tsx:44-57 | a key is `Correct` exactly when some guess has its letter where the target has it too |
| Keyboard.MonotoneUnderNewGuess | components/wordle-keyboard.tsx:39-71 | adding a guess never lowers a key's colour; a `Correct` key stays `Correct` |
| Keyboard.GuessesScoredIndependently | components/wordle-keyboard.tsx:39-42 | the colour over a list of guesses is the maximum of the colours over its parts: each guess starts from fresh counts |
| Keyboard.OnlyNormalizedNameCounts | components/wordle-keyboard.tsx:33-37 | two names with the same normal form colour every key alike |
| Dialog.OnKeyKeepsValid | components/wordle-dialog.tsx:111-140 | every key keeps the typed guess within the name's length and the history well formed (at most eight full-length guesses, none after a match); a report carries the history with the new guess last and says whether it matched |
| Dialog.RunKeepsValid | components/wordle-dialog.tsx:111-140 | any sequence of keys keeps that invariant |
| Dialog.OpenKeepsValid | components/wordle-dialog.tsx:44-57 | opening clears the typed guess and restores the saved guesses; a well-formed saved history gives a valid session |
| Dialog.GameOverIgnoresKeys | components/wordle-dialog.tsx:31-35 | once solved, after eight guesses (here or saved), or while celebrating, every key is ignored |
| Dialog.ShortEnterIgnored | components/wordle-dialog.tsx:114-115 | Enter on a guess shorter than the name changes nothing and reports nothing |
| Dialog.FullEnterSubmits | components/wordle-dialog.tsx:114-131 | Enter on a full guess records it and clears the typed guess; it reports exactly when the guess matched or was the eighth, and starts the celebration exactly on a match |
| Dialog.BackspaceDrops | components/wordle-dialog.tsx:132-133 | Backspace drops the last typed letter and leaves an empty guess empty |
| Dialog.LetterAppends | components/wordle-dialog.tsx:134-139 | another key appends a letter exactly when the key maps to one and the typed guess is shorter than the name |
| Dialog.OnlyEnterReports | components/wordle-dialog.tsx:111-140 | no key other than Enter reports |
| Dialog.CloseReport | components/wordle-dialog.tsx:100-108 | closing reports the history as incomplete exactly when there is a guess and the puzzle is unsolved; a request to open reports nothing |
| Daily.Lines | app/page.tsx:25 | splitting on line breaks yields one more piece than there are line feeds, and no piece holds a line feed |
| Daily.LinesSingle | app/page.tsx:25 | a text without a line feed is a single line, a trailing carriage return kept |
| Daily.LinesCons | app/page.tsx:25 | the first line feed ends the first line, which loses one carriage return just before it; the remaining lines are those of the rest (with `LinesSingle`, this fixes every result) |
| Daily.LinesJoin | app/page.tsx:25 | joining the lines of a text without carriage returns with line feeds gives the text back |
| Daily.Fields | app/page.tsx:30 | a row has one more field than commas, and no field holds a comma |
| Daily.GetGameForDifficulty | app/page.tsx:24-55 | an error naming the difficulty exactly when no row qualifies; otherwise eleven lineup entries, the requested difficulty and game id `2*day` (+1 when hard) |
| Daily.PoolRowsKept | app/page.tsx:27-35 | a line is in the pool exactly when it is a data line and passes the filter |
| Daily.PoolIsFilteredDataLines | app/page.tsx:25-35 | membership only: a line is in the pool exactly when it is a line after the header of the trimmed text and passes the filter |
| Daily.FilterAppend | app/page.tsx:27-35 | the filter works line by line: the kept lines of a concatenation are those of each part, in order |
| Daily.FilterSingle | app/page.tsx:27-35 | one line is kept, once, exactly when it passes the filter (with `FilterAppend`, this fixes the pool's order and repeats, which decide the day's row) |
| Daily.RawFields | app/page.tsx:44 | splitting the untrimmed row gives the trimmed row's fields, except that the first gains the leading and the last the trailing whitespace (a one-field row gains both) |
| Daily.KeptRowParses | app/page.tsx:27-50 | a row that passed the trimmed filter reads back, untrimmed, with the requested difficulty and exactly eleven lineup entries |
| Daily.LineupColumnIsRowTail | app/page.tsx:33 | the lineup column keeps its commas: the row is its first four fields, a comma, and the lineup column verbatim |
| Daily.ChosenRow | app/page.tsx:41-54 | the game is read from the pool row at the day number modulo the pool size, and that row is a qualifying data line |
| Daily.SingleRowPool | app/page.tsx:41-42 | a one-row pool yields its row on every day |
| Daily.GameIdsDistinct | app/page.tsx:52 | easy ids are even, hard ids odd, and no two (day, difficulty) pairs share an id |
| Positions.ParseFormation | lib/api.ts:14-16 | one number per `-`-separated segment |
| Positions.DigitCode | lib/api.ts:14-19 | a code of single digits joined by `-` reads as those digits |
| Positions.KnownFormation | lib/api.ts:23-67 | each of the six known codes gives eleven labels starting with `"GK"`, whose outfield lines have the sizes the code names |
| Positions.UnknownThreeSegmentCode | lib/api.ts:23-61 | an unknown three-segment code gives `"GK"` followed by `P1..Pn` |
| Positions.UnknownOtherCode | lib/api.ts:68-72 | an unknown code of any other shape gives `P1..Pn` |
| Positions.Generic | lib/api.ts:58-59 | one fallback label per lineup entry |
| Positions.GenericLabelsDistinct | lib/api.ts:70-71 | the fallback labels are pairwise distinct |
| Positions.AssignPositionsShape | lib/api.ts:76-80 | one player per name, with its index as id, the name unchanged, and a position exactly where the table has an entry |
| Positions.KnownFormationFullLineup | lib/api.ts:18-80 | with a known code and eleven names, every player has a position and player 0 is the goalkeeper |
| Formation.FormationRows | components/formation.tsx:21 | definition of the row counts; see `Formation.GoalkeeperRow`, `KnownRowCounts`, `KnownFormationRows` |
| Formation.StartIsSum | components/formation.tsx:40-43 | the start of a row is the sum of the earlier rows' counts |
| Formation.RowIsSlice | components/formation.tsx:38-45 | when it fits, a row is the slice of the lineup that starts after the earlier rows and is as long as its count |
| Formation.RowNoLonger | components/formation.tsx:44 | a row never holds more players than its count: the slice is clipped at the lineup's end |
| Formation.NaNRowsEmpty | components/formation.tsx:40-44 | a segment that is not a number empties its own row and every later one |
| Formation.GoalkeeperRow | components/formation.tsx:21-45 | the goalkeeper row holds exactly the first player |
| Formation.RowsCoverLineup | components/formation.tsx:38-45 | when the counts add up to the lineup size, the rows in order are the lineup: every player once, in order |
| Formation.KnownFormationRows | components/formation.tsx:21-45 | every known code lays an eleven-player lineup out row by row, each player exactly once |
| Formation.KnownRowCounts | components/formation.tsx:21 | the rows of a known code are all numbers and add up to eleven |
| Formation.HandleGuessComplete | components/formation.tsx:27-36 | records the reported progress under the player's id, keeps every other player's progress, and closes the dialog |
| Formation.ReportsKeepSavedValid | components/formation.tsx:27-36 | saving what the dialog reports, on Enter or on closing, keeps every saved history well formed (at most eight full-length guesses, complete only when the last one matched) |
| Jersey.SolvedFailedExclusive | components/jersey.tsx:13-15 | solved and failed never hold together; failed means at least eight guesses and not complete |
| Jersey.GlyphAndBadge | components/jersey.tsx:174-201 | the glyph is a check mark, a cross or a question mark by progress; the badge shows exactly when there are guesses, with their number, coloured green when solved, red when failed and amber in progress |
| Jersey.LabelChoice | components/jersey.tsx:206-216 | the raw name once the puzzle is over; before that, the number of letters to guess, punctuation not counted |
| Jersey.Colours | components/jersey.tsx:17-35 | a goalkeeper wears the fixed solid goalkeeper colours; other players wear their team's colours and pattern (solid when it has none); a missing, empty or unknown team name gives the default colours and pattern |
| Jersey.ReplaceWhitespaceRuns | components/jersey.tsx:23 | the gradient id holds no whitespace |
| Jersey.ReplaceAppend | components/jersey.tsx:23 | the replacement works piece by piece wherever a cut does not split a whitespace run |
| Jersey.ReplaceRun | components/jersey.tsx:23 | a whole whitespace run becomes exactly one `-` |
| Jersey.ReplaceRunBetween | components/jersey.tsx:23 | a maximal whitespace run between two parts becomes one `-` between their replacements (with `ReplaceKeepsPlain`, this fixes every result) |
| Jersey.ReplaceKeepsPlain | components/jersey.tsx:23 | a team name without whitespace is its own id |
| Jersey.ReplaceKeepsCount | components/jersey.tsx:23 | every character other than whitespace and `-` keeps its number of occurrences |
| Jersey.TeamIdShape | components/jersey.tsx:23 | "default" without a team name; otherwise no whitespace |
| PlayerCard.StylePriority | components/player-card.tsx:13-24 | the style goes complete, then failed, then attempting, then untouched, and is untouched exactly when there is no guess |
| PlayerCard.Masking | components/player-card.tsx:30-33 | the name stays hidden behind at most eight stars until the puzzle is over; the top line is a check mark when complete, a cross when failed, and the position otherwise |
| PlayerCard.BadgeShown | components/player-card.tsx:36-42 | the badge shows exactly when there are guesses, with their number |
| PlayerCard.FailedAgreesWithJersey | components/player-card.tsx:14 | with at most eight guesses, as the dialog ensures, the card's "exactly eight" and the jersey's "at least eight" agree |
| Dialog.OnKey | components/wordle-dialog.tsx:111-140 | definition of the key handler; see `Dialog.OnKeyKeepsValid`, `ShortEnterIgnored`, `FullEnterSubmits`, `BackspaceDrops`, `LetterAppends` |
| Dialog.OnClose | components/wordle-dialog.tsx:100-108 | definition of the close report; see `Dialog.CloseReport` |
| Dialog.OnOpenChange | components/wordle-dialog.tsx:44-57 | definition of the open/close effect; see `Dialog.OpenKeepsValid` |
| Dialog.Run | components/wordle-dialog.tsx:111-140 | a sequence of keys handled in order; see `Dialog.RunKeepsValid` |
| Grid.GridStatus | components/wordle-grid.tsx:49-93 | the reference status of one position; see `Grid.GridStatusCases`, `MarkedExact`, `LetterBudget`, and `Grid.GetLetterStatus` proved equal to it |
| Grid.GuessIndex | components/wordle-grid.tsx:118-122 | definition of the column-to-guess index; see `Grid.GuessIndexIsPrefixLength`, `GuessIndexInRange`, `ColumnOf` |
| Grid.CellAt | components/wordle-grid.tsx:97-125 | definition of one tile; see `Grid.SubmittedRowCell`, `OpenRowsUncoloured` |
| Keyboard.KeyColour | components/wordle-keyboard.tsx:27-73 | the reference key colour; see `Keyboard.GetKeyStatus` proved equal to it, `CorrectIff`, `MonotoneUnderNewGuess` |
| Daily.Keep | app/page.tsx:28-34 | definition of the row filter; see `Daily.PoolRowsKept`, `KeptRowParses` |
| Daily.Pool | app/page.tsx:25-35 | definition of the candidate rows; see `Daily.PoolIsFilteredDataLines` |
| Daily.ParseRow | app/page.tsx:44-54 | definition of reading the chosen row; see `Daily.KeptRowParses`, `RawFields`, `LineupColumnIsRowTail` |
| Positions.NumberOf | lib/api.ts:15 | definition of `Number` on a segment; see `Positions.DigitCode` |
| Positions.PositionTable | lib/api.ts:19-73 | definition of the position table; see `Positions.KnownFormation`, `UnknownThreeSegmentCode`, `UnknownOtherCode` |
| Positions.AssignPositions | lib/api.ts:76-80 | definition of labelling the lineup; see `Positions.AssignPositionsShape`, `KnownFormationFullLineup` |
| Formation.StartIndex | components/formation.tsx:40-43 | definition of a row's start; see `Formation.StartIsSum` |
| Formation.PlayersByRow | components/formation.tsx:38-45 | definition of a row's players; see `Formation.RowIsSlice`, `RowsCoverLineup`, `NaNRowsEmpty` |
| Jersey.TeamId | components/jersey.tsx:23 | definition of the gradient id; see `Jersey.TeamIdShape` and the replacement laws |
| Jersey.Render | components/jersey.tsx:12-216 | definition of the jersey; see `Jersey.GlyphAndBadge`, `LabelChoice`, `Colours` |
| PlayerCard.Render | components/player-card.tsx:12-46 | definition of the card; see `PlayerCard.StylePriority`, `Masking`, `BadgeShown` |

## Left out

- Rendering, CSS, animation, tile sizes (`sizeConfig`, `letterSizeClass`) and the markup: they decide nothing the game computes.
- Persistence (`localStorage`, `sessionStorage`), fetching the games table, and the React effects and timers. The one-second close after a win is the `celebrating` flag; the timer itself is not modelled.
- The clock: `UTC_DAY_INDEX` is the parameter `dayIndex` of `Daily.GetGameForDifficulty`.
- `normalizeKeyInput` (`lib/utils.ts`) is not part of this model. The dialog takes it as a parameter that maps a key to no letter or one letter.
- `key.toUpperCase()` in the keyboard: the on-screen keys are already upper-case letters, so a letter key is its own upper-case form.
- The colour table of `lib/teams.ts` is a parameter (a map and a default) of `Jersey.Render`.
- Positions.NumberOf: reads the empty string as 0, decimal digits as their value and everything else as NaN. JavaScript's `Number` also accepts surrounding whitespace, signs, fractions, exponents and hexadecimal; formation codes use none of these.
- Text.TrimStart: trims the six ASCII whitespace characters (space, tab, line feed, carriage return, vertical tab, form feed). JavaScript's `trim` and `\s` also cover the no-break space U+00A0, the byte-order mark U+FEFF, the line and paragraph separators U+2028 and U+2029, and the other Unicode space separators, none of which occur in the games table.
- The development placeholder `getTodaysGame` in `lib/api.ts` and the components outside the core (header, match info, team selection) are not modelled.
- The first handler's guard `!open || !player` (`components/wordle-dialog.tsx:61`) is not a separate case: the listener is attached only while the dialog is open with a player, so both handlers reduce to one transition, `Dialog.OnKey`.
- Strings are sequences of Unicode code points. The source mixes two views: `split('')`, `.length` and indexing (`lib/utils.ts:16`, `components/wordle-grid.tsx:64`) count UTF-16 code units, while `for … of` (`components/wordle-grid.tsx:58`, `components/wordle-keyboard.tsx:35`) walks code points. The two agree on names within the Basic Multilingual Plane. For a character outside it, the source shows two boxes and expects two guess letters, and the model shows one.
- Object-prototype keys in `TEAM_CONFIGS[team]` (a team named `constructor`, say) are not modelled: the table is a plain map.
