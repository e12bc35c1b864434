# Guess the Number — a Dafny model of the game's core

Guess the Number is a Mastermind-style game. The server draws a secret of
five distinct digits, the first not 0. The player has ten guesses. Each
guess is answered with two counts:

- exact matches: a right digit in the right place;
- partial matches: a digit that is in the secret but elsewhere.

A tutorial panel walks the player through a deduction strategy.

- The first guess splits the ten digits into four groups. This is the
  digits table.
- Three hypotheses about how the secret's digits fall into those groups
  are the columns of a clues table.
- The sums exact + partial of guesses 1 to 3 fill in the clues table and
  cross out or highlight columns.

The player can also mark digits of past guesses and cells of the tutorial
table.

This project models:

- the server's game logic and its copy in the client (`GameLogic`,
  `LocalGameLogic`);
- the server's single game record (`Server`);
- the tutorial's deduction engine (`TutorialLogic`);
- the two client contexts that hold marks and tutorial state
  (`GameContext`, `TutorialContext`);
- the guess input filter of the game board (`GameBoard`).

`Common` and `Digits` hold shared definitions:

- `Digits.ToDigits` models the conversion `String(n).split("").map(Number)`;
- `Digits.FromDigits` models the conversion `parseInt(digits.join(""))`.

A guess or a secret is the `seq<int>` of its decimal digits.

Modelling choices:

- **Random draws.** The random digits of the generator are a parameter:
  the stream of values `Math.floor(Math.random() * 10)`.
- **Tutorial cells.** A cell is `None` for `""` and `Some(v)` for the
  text of `v`. `Number("")` reads as 0.
- **State classes.** Each state the source updates in place is a class
  whose methods are proved against a pure function of the old state:
  - `Server.GameServer` against `Server.Respond`;
  - `TutorialContext.TutorialSession` against
    `TutorialContext.UpdateFromGuess` and `TutorialLogic.ApplyClues`;
  - `GameContext.GameMarks` against `GameContext.MarkDigit` and
    `GameContext.MarkedNotIn`.
- **Loops.** The counting loops, the sampling loop and the grid-filling
  loops are `while`/`for` loops with invariants.

Behaviour worth knowing: the tutorial's cross-out counter counts cross-out
events, not distinct columns. Turn 2 re-examines a column that turn 1 has
already crossed out and counts it again.
`TutorialLogic.RecountOfCrossedColumn` shows a concrete case:

- a first sum of 4 crosses out column 2;
- a second sum of 3 crosses it out again;
- the counter reaches 2 although column 1 is still consistent;
- column 0 is highlighted as if it were the only one left.

## Model

| member | source | states |
|---|---|---|
| Common.ElementsSize | BackEnd/gameLogic.js:76-78 | `new Set(digits).size` is at most the length, and equals it exactly when no digit repeats |
| Digits.ToDigits | BackEnd/gameLogic.js:31-32 | the digits of `String(n)` are at least one digit, with no leading 0 unless the number is 0 |
| Digits.FromDigits | BackEnd/gameLogic.js:18 | `parseInt` of the joined digits is never negative, and is positive when the first digit is not 0 |
| Digits.SplitAfterJoin | BackEnd/gameLogic.js:18-32 | joining digits with a non-zero lead, parsing, and splitting the decimal text gives the same digits back |
| Digits.JoinAfterSplit | BackEnd/gameLogic.js:18-32 | parsing the decimal text of a number gives the number back |
| GameLogic.CheckGuess | BackEnd/gameLogic.js:29-55 | the two loops count the positions 0..4 with equal digits, and those whose guess digit is in the target but not at that place; both counts lie in 0..5 |
| GameLogic.ExactPlusPartial | BackEnd/gameLogic.js:38-52 | a position counts as exact or as partial, never both, exactly when its guess digit occurs in the target |
| GameLogic.ScoreBounds | BackEnd/gameLogic.js:38-52 | on five-digit inputs each count is in 0..5, and exact + partial is the number of guess digits present in the target, so at most 5 |
| GameLogic.ScoreOfTarget | BackEnd/gameLogic.js:38-52 | checking the target against itself gives 5 exact and 0 partial |
| GameLogic.FiveExactMeansEqual | BackEnd/gameLogic.js:38-42 | 5 exact matches happen exactly when guess and target are equal |
| GameLogic.ValidateGuess | BackEnd/gameLogic.js:62-83 | a wrong length is reported first, then a leading 0, then a repeated digit; the guess is valid exactly when it has five distinct digits and no leading 0 |
| GameLogic.NumberNeverLeadingZero | BackEnd/gameLogic.js:63-73 | the five-digit decimal text of a number never hits the leading-zero rejection |
| GameLogic.StringWithLeadingZero | BackEnd/gameLogic.js:71-73 | the text "01234" does hit the leading-zero rejection |
| GameLogic.SecretIsValid | BackEnd/gameLogic.js:62-83 | every secret the generator can produce passes validation |
| GameLogic.GenerateRandomNumber | BackEnd/gameLogic.js:7-21 | rejection sampling keeps distinct digits, at most five, with a non-zero first digit; the parsed number's decimal text is exactly the five digits drawn |
| GameLogic.CollectKeepsPrefix | BackEnd/gameLogic.js:9-16 | whatever the draws, the loop's digits keep its invariant |
| LocalGameLogic.CheckLocalGuess | frontend/src/utils/localGameLogic.ts:29-55 | returns the same score as the server's `checkGuess` on every input |
| LocalGameLogic.ValidateLocalGuess | frontend/src/utils/localGameLogic.ts:62-83 | agrees with the server's validation on every input, with the same three rejections in the same order |
| LocalGameLogic.GenerateLocalRandomNumber | frontend/src/utils/localGameLogic.ts:7-21 | yields five distinct digits with a non-zero first digit, joined and parsed so the number's text is those digits |
| TutorialLogic.InitializeTutorialState | frontend/src/utils/tutorialLogic.ts:16-29 | four 4x3 grids: both tables empty, no cell crossed out or highlighted |
| TutorialLogic.HideTutorialClues | frontend/src/utils/tutorialLogic.ts:45-58 | clues and flags start over; the digits table is kept |
| TutorialLogic.ResetDigitsArray | frontend/src/utils/tutorialLogic.ts:32-34 | ten entries, ascending, holding exactly the digits 0..9 |
| TutorialLogic.SpliceDigitFromArray | frontend/src/utils/tutorialLogic.ts:37-42 | every occurrence of the number is removed, every other value keeps its count, and the kept values stay in their order (a subsequence of the input) |
| TutorialLogic.SpliceKeepsOrder | frontend/src/utils/tutorialLogic.ts:37-42 | filtering an ascending array leaves it ascending |
| TutorialLogic.RemoveDigits | frontend/src/utils/tutorialLogic.ts:69-71 | after splicing out each input digit, none of them is left, and every other value keeps its count |
| TutorialLogic.RemoveKeepsOrder | frontend/src/utils/tutorialLogic.ts:69-71 | the available digits stay ascending |
| TutorialLogic.AvailableDigits | frontend/src/utils/tutorialLogic.ts:65-71 | after five distinct digits, the five others remain, ascending, and together with the input they make up 0..9 |
| TutorialLogic.FiveDigitsLeaveFive | frontend/src/utils/tutorialLogic.ts:84-92 | any five input digits leave at least the five available digits the table reads |
| TutorialLogic.SpliceInputDigits | frontend/src/utils/tutorialLogic.ts:65-71 | splicing each input digit out of 0..9 in turn leaves exactly the digits `RemoveDigits` specifies |
| TutorialLogic.FillRow | frontend/src/utils/tutorialLogic.ts:75-92 | one row-filling loop writes the next `n` values into the first `n` cells of the row and changes no other cell |
| TutorialLogic.SetTutorialDigitsFromInput | frontend/src/utils/tutorialLogic.ts:61-102 | the table gets input digits 0..2, then 3..4 and a blank, then the first two available digits and a blank, then the next three; the other grids are untouched; it throws (`None`) exactly when fewer than five input digits or fewer than five available digits are there to read |
| TutorialLogic.LayoutCells | frontend/src/utils/tutorialLogic.ts:75-96 | read row by row, the filled cells are the five input digits followed by the five available ones |
| TutorialLogic.DigitsTablePartition | frontend/src/utils/tutorialLogic.ts:65-96 | for a distinct first guess, every digit 0..9 sits in exactly one non-empty cell |
| TutorialLogic.Turn1Clues | frontend/src/utils/tutorialLogic.ts:126-143 | populated columns get `sum - (2 - j)` in row 0 and `2 - j` in row 1; every other cell is kept |
| TutorialLogic.MarkColumns | frontend/src/utils/tutorialLogic.ts:147-149 | a cell is set exactly when it was set before or its column is marked |
| TutorialLogic.Turn2Clues | frontend/src/utils/tutorialLogic.ts:155-170 | non-blank columns get row 2 = S2 - row 0 and row 3 = what is left of five; blank columns are kept |
| TutorialLogic.FirstOpenColumn | frontend/src/utils/tutorialLogic.ts:185-194 | the leftmost column whose row 0 is not crossed out, or none |
| TutorialLogic.ApplyClues | frontend/src/utils/tutorialLogic.ts:105-234 | stores exact + partial at index turn - 1 and keeps the digits table; flags are only ever set, never cleared; a turn other than 1..3 changes no grid and keeps the counter |
| TutorialLogic.MarkColumn | frontend/src/utils/tutorialLogic.ts:147-149 | the `z` loop sets all four rows of one column |
| TutorialLogic.CluesTurn1 | frontend/src/utils/tutorialLogic.ts:123-152 | both branches of the turn-1 loops fill the populated columns; column 2 is crossed out and counted iff its row 0 exceeds 3 |
| TutorialLogic.FillTurn2Columns | frontend/src/utils/tutorialLogic.ts:155-181 | the turn-2 column loop fills rows 2 and 3, crosses out exactly the contradicted columns, and counts them |
| TutorialLogic.HighlightFirstOpen | frontend/src/utils/tutorialLogic.ts:184-195 | the highlight loop marks the first column whose row 0 is not crossed out, then stops |
| TutorialLogic.CluesTurn2 | frontend/src/utils/tutorialLogic.ts:154-196 | turn 2 as a whole: clues, crosses, counter, and a highlight only when the counter is 2 |
| TutorialLogic.CluesTurn3 | frontend/src/utils/tutorialLogic.ts:198-219 | the nested loops highlight the fitting non-blank columns and cross out the others |
| TutorialLogic.SetTutorialClues | frontend/src/utils/tutorialLogic.ts:105-234 | the copied grids end as `ApplyClues` says; the sum is stored at turn - 1; the digits table is unchanged |
| TutorialLogic.Turn1Rules | frontend/src/utils/tutorialLogic.ts:124-151 | turn 1 resets the counter; populated columns hold row 1 = 2 - j with rows 0 + 1 = sum; column 2 is crossed in all rows, with counter 1, iff row 0 of column 2 > 3 |
| TutorialLogic.Turn1Columns | frontend/src/utils/tutorialLogic.ts:126-151 | on an empty table, a sum of at most 2 fills exactly columns 2 - sum to 2, a larger sum fills all; column 2 is crossed iff the sum exceeds 3 |
| TutorialLogic.Turn2Rules | frontend/src/utils/tutorialLogic.ts:155-181 | blank columns are untouched; processed columns get row 2 = S2 - row 0, and their four rows add to 5; a column is crossed out iff row 2 is outside 0..2 or row 3 < 0 |
| TutorialLogic.Turn2Count | frontend/src/utils/tutorialLogic.ts:171-180 | the counter grows by the number of columns turn 2 crosses out, including those turn 1 crossed already |
| TutorialLogic.ContradictionsStep | frontend/src/utils/tutorialLogic.ts:155-181 | processing one more column adds it to the crossed-out set exactly when its turn-2 rows are impossible |
| TutorialLogic.CountIsSize | frontend/src/utils/tutorialLogic.ts:171-180 | the loop's count equals the size of the set of contradicted columns |
| TutorialLogic.Turn2Highlight | frontend/src/utils/tutorialLogic.ts:184-195 | when the counter is 2, exactly the leftmost column not crossed out is highlighted in all rows; otherwise nothing is highlighted |
| TutorialLogic.Turn3Rules | frontend/src/utils/tutorialLogic.ts:199-218 | a non-blank column is highlighted iff S3 is row 1 + row 2 or one more, and crossed out otherwise; clues and counter are unchanged |
| TutorialLogic.RecountOfCrossedColumn | frontend/src/utils/tutorialLogic.ts:146-195 | sums 4 then 3 cross column 2 twice; the counter reaches 2 while column 1 is still consistent, and column 0 is highlighted |
| Server.GameServer.constructor | BackEnd/server.js:19-24 | no target, inactive, 10 turns, empty history |
| Server.GameServer.NewGame | BackEnd/server.js:32-39 | the record is replaced by an active game on the drawn secret, with 10 turns and no history |
| Server.GameServer.Guess | BackEnd/server.js:59-128 | the record and the reply follow `Respond`, and the invariant turns + history = 10 is kept |
| Server.NewRecordValid | BackEnd/server.js:34-39 | a new game is active, has 10 turns, an empty history, and satisfies the invariant |
| Server.RespondKeepsInvariant | BackEnd/server.js:87-119 | every reply keeps turns >= 0, turns + history = 10, and an active game with a turn left |
| Server.RefusalChangesNothing | BackEnd/server.js:64-78 | a guess is refused exactly when the record is unchanged: always when inactive, and for an invalid guess when active |
| Server.AcceptedGuessUsesOneTurn | BackEnd/server.js:81-92 | an accepted guess takes exactly one turn and appends exactly one entry, holding the guess and its score |
| Server.WinOnSecret | BackEnd/server.js:95-119 | the game is won iff the guess is the secret, even on the tenth guess, with turnsTaken = history length; it is lost iff a wrong guess uses the last turn; either way it goes inactive |
| Server.AtMostTurnsRemaining | BackEnd/server.js:87-111 | any sequence of guesses is accepted at most as often as there are turns left, so a game logs at most ten guesses |
| GameContext.MarkDigit | frontend/src/context/GameContext.tsx:181-200 | undo deletes key "row-digit", any other action stores its mark there; other keys are unchanged |
| GameContext.LookupMark | frontend/src/context/GameContext.tsx:203-209 | the stored mark, or nothing when the key is absent |
| GameContext.Occurrences | frontend/src/context/GameContext.tsx:237-246 | exactly the (row, index) pairs where that row's guess has the digit at that index |
| GameContext.MarkedNotIn | frontend/src/context/GameContext.tsx:233-249 | every occurrence of the digit is marked not-in; every other key keeps its mark or its absence |
| GameContext.MarkedNotInIdempotent | frontend/src/context/GameContext.tsx:233-249 | marking all occurrences twice equals marking them once |
| GameContext.LookupAfterMark | frontend/src/context/GameContext.tsx:181-209 | reading a key after marking it gives the mark, or nothing after undo; marking a fresh key and undoing restores the map |
| GameContext.GameMarks.constructor | frontend/src/context/GameContext.tsx:36-47 | empty history, not playing, no marks |
| GameContext.GameMarks.RecordGuess | frontend/src/context/GameContext.tsx:141-145 | the scored guess is appended to the history; marks are untouched |
| GameContext.GameMarks.ResetGame | frontend/src/context/GameContext.tsx:173-178 | play stops and the mark map is emptied |
| GameContext.GameMarks.MarkGameDigit | frontend/src/context/GameContext.tsx:181-200 | the mark map becomes `MarkDigit` of the old one |
| GameContext.GameMarks.GetGameDigitMark | frontend/src/context/GameContext.tsx:203-209 | returns `LookupMark` of the current map |
| GameContext.GameMarks.MarkAllOccurrencesOfDigit | frontend/src/context/GameContext.tsx:211-252 | an empty digit or a mark other than not-in changes nothing; otherwise the nested loops leave the map equal to `MarkedNotIn` |
| TutorialContext.Toggled | frontend/src/context/TutorialContext.tsx:70-72 | the mode always changes |
| TutorialContext.ToggleTwice | frontend/src/context/TutorialContext.tsx:70-72 | toggling twice is the identity |
| TutorialContext.MarkCellMap | frontend/src/context/TutorialContext.tsx:112-124 | undo deletes key "row-col", in/out stores the mark; other keys are unchanged |
| TutorialContext.CallbackDigit | frontend/src/context/TutorialContext.tsx:127-153 | the callback gets a digit exactly for an out mark, with a callback held, on a non-empty cell; the digit is that cell's |
| TutorialContext.FirstGuessLayout | frontend/src/context/TutorialContext.tsx:91-97 | the digits table built from the first guess: its first five digits fill rows 0 and 1, with row 1's last cell blank |
| TutorialContext.UpdateFromGuess | frontend/src/context/TutorialContext.tsx:83-110 | the update throws exactly on turn 1 when the guess's digits do not fill the digits table |
| TutorialContext.DigitsTableFromFirstGuess | frontend/src/context/TutorialContext.tsx:83-110 | turn 1 builds the digits table from the guess's digits before the clues apply, with every digit in one cell for a guess of five distinct digits; other turns keep the digits table; the turn's sum is stored |
| TutorialContext.FiveDigitGuessFits | frontend/src/context/TutorialContext.tsx:91-97 | a guess of five digits, repeated or not, never makes turn 1 throw |
| TutorialContext.FourDigitGuessThrows | frontend/src/utils/tutorialLogic.ts:79-82 | the number 2345, which the game board submits for the text "02345", makes turn 1 throw |
| TutorialContext.SetSlot | frontend/src/context/TutorialContext.tsx:58-60 | a plain value is stored as it is; a function is called as an updater and its result is stored |
| TutorialContext.CallbackNeverFiresAsWritten | frontend/src/App.tsx:22-24 | connected as App.tsx does it, the slot never holds the callback and no out mark hands a digit to the game |
| TutorialContext.CallbackFiresWhenConnected | frontend/src/App.tsx:22-24 | connected as intended, an out mark on a cell holding a digit hands that digit to the game |
| TutorialContext.TutorialSession.constructor | frontend/src/context/TutorialContext.tsx:46-60 | initial grids, no sums, counter 0, automatic mode, no marks, no callback |
| TutorialContext.TutorialSession.ToggleStrategyMode | frontend/src/context/TutorialContext.tsx:70-72 | swaps automatic and manual and changes nothing else |
| TutorialContext.TutorialSession.ResetTutorial | frontend/src/context/TutorialContext.tsx:74-81 | initial grids, an empty sum list, counter 0, and no cell marks |
| TutorialContext.TutorialSession.SetGameDigitMarkCallback | frontend/src/context/TutorialContext.tsx:58-60 | the slot becomes `SetSlot` of its old value and the argument, as React's state setter does; nothing else changes |
| TutorialContext.TutorialSession.UpdateTutorialFromGuess | frontend/src/context/TutorialContext.tsx:83-110 | the call throws exactly when `UpdateFromGuess` does, and then changes nothing; otherwise the state and data become its result; marks and mode are untouched |
| TutorialContext.TutorialSession.MarkCell | frontend/src/context/TutorialContext.tsx:112-161 | the mark map becomes `MarkCellMap` of the old one; the callback digit is `CallbackDigit`; the tutorial is untouched |
| TutorialContext.TutorialSession.GetCellMark | frontend/src/context/TutorialContext.tsx:163-166 | the stored mark, or nothing when the key is absent |
| GameBoard.HandleInputChange | frontend/src/components/GameBoard/GameBoard.tsx:27-57 | errors in order: non-digits, then a lone "0", then a last character seen earlier; a value over five characters is ignored; a refused value leaves the guess unchanged; a value passing every check with at most five characters becomes the text, with no error |
| GameBoard.AppendKeepsGood | frontend/src/components/GameBoard/GameBoard.tsx:38-56 | typing one character onto a text of at most five distinct digits, not led by '0', keeps it so |
| GameBoard.DeleteKeepsGood | frontend/src/components/GameBoard/GameBoard.tsx:43-56 | deleting the last character is accepted and keeps the text good |
| GameBoard.TypingKeepsGood | frontend/src/components/GameBoard/GameBoard.tsx:27-57 | from a good text, any sequence of characters appended at the end and deletions of the last character gives distinct digits, no leading '0', at most five |
| GameBoard.PastedValuesPass | frontend/src/components/GameBoard/GameBoard.tsx:38-49 | a value entered in one change passes with a repeated digit ("1123") or a leading zero ("01234"), since only the last character and a lone "0" are checked |
| GameBoard.MidTextEditsPass | frontend/src/components/GameBoard/GameBoard.tsx:38-49 | edits inside the text get past the filter too: "102" with its first character deleted gives "02", and "123" with '2' inserted gives "1223" |
| GameBoard.HandleGuess | frontend/src/components/GameBoard/GameBoard.tsx:59-85 | an empty text is NaN; submission happens exactly when the text has five characters, with turn = history length + 1 |
| GameBoard.SubmittedNumberHasTypedDigits | frontend/src/components/GameBoard/GameBoard.tsx:61-74 | a good five-character text is submitted as a number whose decimal digits are exactly the five typed digits |
| GameBoard.KeyboardSubmitsFourDigits | frontend/src/components/GameBoard/GameBoard.tsx:27-74 | from "10234", deleting the leading '1' and typing '5' gives "02345", which is submitted as the four-digit number 2345 |

## Left out

- HTTP plumbing in BackEnd/server.js is not modelled: routing, CORS, JSON bodies, status codes, the status and health endpoints, and `app.listen`. Only the `currentGame` transitions are.
- Concurrent requests against the shared game record are not modelled. The server is a single-writer state machine.
- GameLogic.GenerateRandomNumber: `Math.random` is a finite stream of draws passed in. The source keeps drawing until it holds five digits; the model returns `None` if the stream runs out first. Termination with probability 1 is not modelled.
- Server.GameServer.NewGame: takes the generated number as its argument, with the guarantee `GenerateRandomNumber` proves.
- GameLogic.ValidateGuess works on digit sequences. A guess text with a sign, a decimal point, spaces or letters (such as "-1234" or "12.34") is outside the model. So are the conversions of such text by `String` and `parseInt`.
- GameLogic.CheckGuess works on digit sequences. Non-integer numbers are outside the model.
- The client's network code is not modelled: `fetch`, `async`/`await`, `isBackendConnected`, the error modal and the modal state. This includes GameContext's `generateRandomNumber` and `checkGuess` beyond the history append.
- GameContext.GameMarks.ResetGame: starting the next game goes through the network and is not modelled. The history is therefore not cleared here.
- React hooks, effects, providers, rendering, the tutorial's visibility flag (`showTutorial`/`hideTutorial`) and all `console` output are not modelled.
- Mark maps are keyed by the pair (row, index) rather than the string "row-index". The two are in one-to-one correspondence for non-negative indices.
- GameContext.GameMarks.MarkAllOccurrencesOfDigit takes the digit as an optional single digit. A multi-character digit string cannot come from the tutorial table and is not modelled.
- TutorialContext.TutorialSession.SetGameDigitMarkCallback: the slot is a flag saying whether it holds the game's marking function; the function itself is not stored. React calls a function argument as an updater, and App.tsx's argument returns nothing (see "## Findings").
- TutorialContext.TutorialSession.UpdateTutorialFromGuess: the throw on a turn-1 guess with fewer than five digits is modelled as the `thrown` result, with nothing changed. It is reachable: the game board submits the text "02345" as 2345 (`GameBoard.KeyboardSubmitsFourDigits`, `TutorialContext.FourDigitGuessThrows`). What happens to the rejected promise of `handleGuess` afterwards is not modelled.
- TutorialLogic.SetTutorialDigitsFromInput: the source throws part-way through filling the copied table; the model checks first and returns `None`. Since the table is a copy, nothing visible differs.
- TutorialContext.TutorialSession.MarkCell: on an out mark with a callback held, it requires the row to exist, because the source throws reading a missing row.
- GameBoard.HandleGuess: requires the field's text to be all digits. That is all the filter lets in (`GameBoard.HandleInputChange`). `parseInt` on other text is not modelled.
- Tutorial grids are values (`seq<seq<_>>`) rather than arrays written in place. The source copies every row before writing, so no aliasing is lost.
- The turn-2 and turn-3 loops are written as one method per loop: `FillTurn2Columns`, `HighlightFirstOpen` and `CluesTurn3`. Their composition is `SetTutorialClues`.
- Display-only files are not modelled: modals, messages, header, footer, table components, the strategy toggle, and the float arithmetic for dropdown positions.

## Findings

| source | as written | input that shows it | evidently intended | confidence | as-written member | corrected member |
|---|---|---|---|---|---|---|
| frontend/src/App.tsx:22-24 | `setGameDigitMarkCallback(markAllOccurrencesOfDigit)` passes a function to a React state setter. React calls it as an updater on the slot's previous value (`null`); it takes its invalid-digit guard and returns nothing, so the slot holds no function. | any out mark on a tutorial cell holding a digit, such as row 0, column 0 after turn 1 | the slot holds the marking function (`() => markAllOccurrencesOfDigit`), so an out mark marks every occurrence of the digit in the game history | high (not executed) | TutorialContext.CallbackNeverFiresAsWritten | TutorialContext.CallbackFiresWhenConnected |
