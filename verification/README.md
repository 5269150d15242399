# Wordle clone: the guess engine and the game window's bookkeeping

This project models the game logic of a Wordle clone written in Python with the flet UI
toolkit. It has two parts.

- **The guess engine (`Logic`, src/logic.py).** It holds the hidden answer, the word list, the
  letters typed so far and the history of accepted guesses. `compare_word` scores the typed
  word against the answer in two passes over a letter counter. The first pass marks exact
  matches CORRECT (1). The second pass marks a misplaced letter PRESENT (2) while copies of
  it remain, and everything else stays ABSENT (3).
- **The game window (`Wordle`, src/interface.py), without its widgets.** This covers:
  - the per-letter key colours that `submit_answer` merges after every accepted guess;
  - the 6×5 letter grid and cursor that `sync_ui_state_with_logic` rebuilds from the engine;
  - how key events are routed and gated;
  - the win/loss decision;
  - the two pop-ups and their timers;
  - the restart.

The Dafny modules follow that structure:

| file | module | contents |
|---|---|---|
| scoring.dfy | `Scoring` | the hint codes; `Hints(guess, answer)`, a reference definition of the hint rule; mirror functions of the two passes of `compare_word`; the letter-budget lemmas |
| logic.dfy | `Engine` | class `Logic` with its fields and methods; `CompareWord` is a loop over a letter counter, proved equal to `Hints` |
| board.dfy | `Board`, `Keyboard` | `MAX_GUESS`, `WORD_LENGTH`, the hint colours, the keyboard layout, Python's substring test on keys, the starting key colours |
| key_status.dfy | `KeyStatus` | the colour-merge rule of `submit_answer`, its fold over a history, and what the keyboard shows after any sequence of scored guesses |
| interface.dfy | `Interface` | class `Wordle` with the window's fields, the invariant tying them to the engine, and the event handlers |

`Wordle.Valid()` is the window's invariant. It says that:
- the engine is valid;
- at most six guesses were made;
- `win` holds exactly when the last guess is the answer;
- `game_over` holds exactly when the round is won or six guesses are used;
- every key shows the merge of all hints so far;
- the grid and cursor show the history and the buffer;
- the game-over pop-up shows only once the round is over.

Every handler keeps this invariant. Each handler also states its exact effect, through the
two-state predicates `BufferBecomes`, `Answered` and `KeyHandled`.

Colours are an enumeration (`Green`, `Yellow`, `Grey`, `DefaultKey`). They map the hint codes as
`HINTS_COLORS` does (src/board.py:7-11), and the keyboard's default colour is `DefaultKey`.
The source merges colours by comparing flet colour constants. The model compares enumeration
values, and `KeyStatus.MergeHintRule` shows that the comparison amounts to a maximum over the
order GREEN > YELLOW > GREY > default.

## Model

| member | source | states |
|---|---|---|
| Scoring.Hints | src/logic.py:44-58 | the hint vector has one code per letter of the answer, every code is CORRECT, PRESENT or ABSENT, and a position is CORRECT exactly when guess and answer agree there |
| Scoring.CounterAdd | src/logic.py:52 | `counter[x] -= 1` on a Counter moves only the count of x, by the given amount; a letter never counted reads as zero before the update |
| Scoring.Counter | src/logic.py:48 | `Counter(ans)` maps every letter to its number of occurrences in the answer |
| Scoring.FirstPassState | src/logic.py:49-52 | after the exact-match pass over the first i letters, exactly the exact matches among them are CORRECT, all else is ABSENT, and each letter's count is its occurrences in the answer less its exact matches |
| Scoring.SecondPassCounter | src/logic.py:53-57 | during the second pass each letter's count equals its budget less the misplaced copies marked PRESENT so far, and those are never more than the budget |
| Scoring.CounterNeverNegative | src/logic.py:48-57 | the letter counter of compare_word never goes negative in either pass |
| Scoring.SecondPassTail | src/logic.py:53-57 | the second pass leaves the positions it has not reached as the first pass left them |
| Scoring.SecondPassHints | src/logic.py:53-57 | the positions the second pass has visited hold their final hints: PRESENT is handed out left to right while the letter's budget lasts |
| Scoring.SecondPassComputesHints | src/logic.py:44-58 | the two passes of compare_word produce exactly the reference hint vector `Hints` |
| Scoring.BudgetNonNegative | src/logic.py:48-52 | exact matches never use more copies of a letter than the answer holds |
| Scoring.FoundPrefix | src/logic.py:49-57 | among the first n positions, the copies of a letter reported found are its exact matches plus its misplaced copies capped at the budget |
| Scoring.LetterBudget | src/logic.py:48-57 | for every letter, the guess positions holding it that are reported CORRECT or PRESENT number exactly min(copies in the guess, copies in the answer) |
| Scoring.DistinctGuessHints | src/logic.py:49-57 | for a guess without repeated letters the hints are the textbook ones: CORRECT on an exact match, else PRESENT when the letter is in the answer, else ABSENT |
| Scoring.AllCorrectIffAnswer | src/logic.py:64-66 | a guess of the answer's length scores all CORRECT exactly when it is the answer |
| Scoring.SpeedErase | src/logic.py:53-57 | answer SPEED, guess ERASE scores [2, 3, 3, 2, 2]: the answer's two E's pay for both E's of the guess |
| Scoring.CraneEerie | src/logic.py:49-57 | answer CRANE, guess EERIE scores [3, 3, 2, 3, 1]: the exact final E uses the only E, so the earlier E's are ABSENT |
| Scoring.AbbeyBobby | src/logic.py:53-57 | answer ABBEY, guess BOBBY scores [2, 3, 1, 3, 1]: the one B left after the exact match goes to the leftmost misplaced B |
| Engine.LowerUpper | src/logic.py:61 | a word list entry with no upper-case letter comes back from upper-casing and lower-casing unchanged |
| Engine.AnswerListed | src/logic.py:17-61 | when the chosen entry has no capitals, the answer made from it has the entry's length and, lower-cased, is in the word list, so a buffer equal to the answer passes both tests of submit_guess |
| Engine.AfterGetLetter | src/logic.py:34-38 | the buffer changes exactly when the argument is non-empty and all letters and the buffer is shorter than the answer; it then gains the argument upper-cased after its old contents; a single letter never takes the buffer past the answer's length |
| Engine.AfterRemoveLetter | src/logic.py:40-42 | an empty buffer stays empty; otherwise exactly the last character is dropped |
| Engine.Logic.constructor | src/logic.py:21-26 | a new engine over the word list has the upper-cased chosen entry as its answer, an empty buffer, an empty history, six guesses, and is valid |
| Engine.Logic.GetCurrentWord | src/logic.py:28-29 | the buffer, which holds only upper-case letters |
| Engine.Logic.GetRemainingGuess | src/logic.py:31-32 | never more than the maximum, and equal to it exactly when nothing has been guessed |
| Engine.Logic.GetMaxGuess | src/logic.py:71 | the maximum number of guesses is 6 |
| Engine.Logic.GetAnsLength | src/logic.py:72 | every accepted guess has the answer's length |
| Engine.Logic.GetLetter | src/logic.py:34-38 | the buffer becomes `AfterGetLetter(old buffer, answer length, letter)`, the history is untouched and the engine stays valid |
| Engine.Logic.RemoveLetter | src/logic.py:40-42 | the buffer becomes `AfterRemoveLetter(old buffer)`, the history is untouched and the engine stays valid |
| Engine.Logic.CompareWord | src/logic.py:44-58 | the hints computed by the two counting loops equal `Hints(buffer, answer)` |
| Engine.Logic.SubmitGuess | src/logic.py:60-69 | accepted exactly when the buffer has the answer's length and its lower-case form is in the word list. A rejection returns `([], False, False)` and changes nothing. An acceptance returns the buffer's hints and wins exactly when the buffer is the answer. It appends (buffer, hints) to the history, clears the buffer and uses up exactly one guess |
| Board.HintColor | src/board.py:7-11 | CORRECT is green, PRESENT yellow, ABSENT grey, and any other code falls back to the default key colour |
| Keyboard.OccursIff | src/interface.py:84 | Python's `key in s` on strings holds exactly when key sits at some index of s |
| Keyboard.SingleInputKey | src/interface.py:84 | a one-character key is an input key exactly when it is a letter of the layout |
| Keyboard.NamedKeysNotInput | src/interface.py:84-90 | ENTER and BACKSPACE are not input keys, so update_ui routes them to their own branches |
| KeyStatus.MergeHintRule | src/interface.py:154-163 | other letters keep their colour. For a valid hint code, the letter ends at the better of its old colour and the hint's colour. A green key is left as it is, and so is the whole map for an unknown code |
| KeyStatus.MergeGuessFrame | src/interface.py:153-163 | merging a guess keeps every key of the map and leaves every letter that is not in the guess at its old colour |
| KeyStatus.StatusesAfterKeys | src/interface.py:153-163 | merging any sequence of guesses keeps every key of the starting map |
| KeyStatus.MergeGuessRank | src/interface.py:153-163 | after merging a guess, each key sits at the better of its old colour and the best colour the guess earned for that letter |
| KeyStatus.StatusesAfterRank | src/interface.py:153-163 | after merging a whole history, each key sits at the better of its starting colour and the best colour any guess earned for it |
| KeyStatus.KeyNeverDowngraded | src/interface.py:155-157 | merging one more guess never lowers a key's colour, and a green key stays green |
| KeyStatus.GuessRankLevels | src/interface.py:158-163 | for one guess: a letter ranks at least grey exactly when typed, at least yellow exactly when some copy was reported found, and green exactly when some copy was CORRECT |
| KeyStatus.ScoredGuessRank | src/interface.py:153-163 | for a scored guess: green exactly when the letter sits where the answer has it, at least yellow exactly when it is in both words, at least grey exactly when it was typed |
| KeyStatus.HistoryLevels | src/interface.py:153-163 | the same three levels for a whole scored history, in terms of the words alone |
| KeyStatus.KeyColors | src/interface.py:153-163 | after any scored history, starting from the default colours, a key shows one of four colours. It is green exactly when some guess placed the letter, yellow exactly when it was guessed and is in the answer but never placed, grey exactly when it was guessed and is not in the answer, and the default exactly when it was never guessed |
| Interface.GridShows | src/interface.py:97-110 | the rebuilt grid has six rows. Row r reads as the r-th accepted guess, the next row reads as the buffer, and later rows are blank. Every row has five cells when every accepted word and the buffer fit in five |
| Interface.Wordle.constructor | src/interface.py:29-53 | a new window is valid: an empty history, no outcome, every layout key at the default colour and both pop-ups hidden |
| Interface.Wordle.SyncUiStateWithLogic | src/interface.py:97-110 | the grid becomes the history's words plus the buffer. The cursor row is the history length capped at the last row, and the cursor column is the buffer length. Once six guesses are used the cursor parks at the end of the last row and the round is over |
| Interface.Wordle.MergeKeyStatuses | src/interface.py:153-163 | the loop over zip(word, hints) leaves the key colours equal to the merge `MergeGuess` of the guess into the old colours |
| Interface.Wordle.ShowWarningDialog | src/interface.py:214-217 | the warning pop-up shows the message |
| Interface.Wordle.ShowGameOverDialog | src/interface.py:199-202 | the game-over pop-up shows the title and message |
| Interface.Wordle.CloseGameOverWindow | src/interface.py:195-197 | the game-over pop-up is hidden, its text unchanged |
| Interface.Wordle.CloseWarningWindow | src/interface.py:210-212 | the warning pop-up is hidden, its text unchanged |
| Interface.Wordle.SubmitAnswer | src/interface.py:141-177 | see `Answered`. A full-length word of the list is scored and recorded, and its hints are merged into the key colours; a win, or the last guess, ends the round with its pop-up. Any other buffer is left as it is, and the warning says "NOT ENOUGH LETTERS!" exactly when the buffer is shorter than five letters, else "WORD NOT FOUND!". The window stays valid |
| Interface.Wordle.RecordAnswer | src/interface.py:151-175 | once a guess is accepted, the key colours take its hints, the grid is rebuilt, `win` is the engine's verdict and the round is over exactly when won or out of guesses; the window is valid again |
| Interface.Wordle.EndRound | src/interface.py:169-175 | a win sets `game_over` and `win` and shows the win pop-up with the number of tries. A non-winning sixth guess sets `game_over` only and shows the answer. Otherwise nothing changes |
| Interface.Wordle.UpdateUi | src/interface.py:83-95 | a layout key goes to get_letter, BACKSPACE to remove_letter, ENTER to submit_answer, and any other key changes nothing; key colours, history and outcome move only on ENTER |
| Interface.Wordle.OnKeyboardEvent | src/interface.py:64-74 | while the round is over or a pop-up shows, nothing changes. Otherwise the upper-cased key is routed when it is a layout key, ENTER or BACKSPACE, and anything else changes nothing |
| Interface.Wordle.HandleKeyPress | src/interface.py:76-81 | the same gate, then the clicked key's data goes to update_ui |
| Interface.Wordle.RestartGameAndCloseWindow | src/interface.py:179-192 | a fresh engine with the chosen answer, an empty history and buffer, every key at the default colour, no outcome, the game-over pop-up hidden, and a valid window |
| Interface.Wordle.GameOverTimeout | src/interface.py:203-208 | when the game-over pop-up is still showing, a new round starts. It has a fresh engine with the chosen answer, an empty history and buffer, default key colours and no outcome. The game-over pop-up is hidden with its text kept, and the warning pop-up is untouched. Otherwise nothing changes |
| Interface.Wordle.WarningTimeout | src/interface.py:219-224 | the warning pop-up ends up hidden, its text unchanged |

## Left out

- Loading the word list from JSON (src/logic.py:10-13) is left out. The word list is a
  constructor parameter.
- The random choice of the answer and its debug print (src/logic.py:16-19) are left out. The
  index of the chosen entry is a parameter (`choice`), and the answer is that entry
  upper-cased.
- Unicode is not modelled. `isalpha`, `upper` and `lower` act on ASCII letters only, so Python's
  handling of other scripts is not captured.
- Rendering and the toolkit are left out, because they only draw state the model already holds:
  - every flet widget (src/popup.py, the board and keyboard controls);
  - `create_main_content` and `draw_ui`;
  - `update_board_display`, and `update_keyboard_display` (see below);
  - every `page.update()`;
  - the fonts and `get_asset_path`;
  - `Keyboard.setAnswerState` and `reset`.
- The colour argument of `show_game_over_dialog` is left out, because it is presentation only.
- The asynchronous timers (`auto_fade`) are modelled only by their effect, as the methods
  `GameOverTimeout` and `WarningTimeout`. The 3-second and 2-second delays and the scheduling
  are not modelled.
- Event objects are reduced to the key name (`e.key`, `e.control.data`) as a string.
- `update_keyboard_display` is not defined in src/keyboard.py. As written, its calls at
  src/interface.py:94, 138, 167 and 191 would fail; the one at line 167 comes before the
  win/loss decision at lines 169-175. The model treats each call as a redraw that changes no
  state.
- Interface.Wordle.constructor: the source reads `self.keyboard.key_statuses` at
  src/interface.py:40, but the line that would set it (src/keyboard.py:17) is commented out,
  so constructing the window as written fails. The model starts the key colours as
  `restart_game_and_close_window` sets them (src/interface.py:185).
- Engine.Logic.constructor: an empty word list makes `random.choice` fail, so the model
  requires a valid index into the list. No separate configuration error exists in the code.
- Engine.Logic.CompareWord: requires the buffer to be no longer than the answer. Python would
  fail on `ans[i]` otherwise, and its only caller checks that the lengths are equal first.
- Engine.AfterGetLetter: `get_letter` appends the whole argument, not one letter, and the model
  does the same. A key such as "QW" passes update_ui's substring test, so the buffer can
  exceed the answer's length. The engine's invariant therefore bounds only the characters of
  the buffer, not its length.
- Interface.Wordle.SubmitAnswer and Interface.Wordle.UpdateUi require that the round is not
  over. Both are reached only through the two event gates, which drop input once
  `game_over` is set.
- Interface.Wordle.SyncUiStateWithLogic requires at most six accepted guesses. With more,
  the row assignment at src/interface.py:100 would fail, and the gates stop input at six.
- Interface.Wordle.RecordAnswer is the part of `submit_answer` after acceptance
  (src/interface.py:151-175), written as its own method. It requires the state just after
  the engine accepted the guess.
